/** `/api/send-books`: mails each selected book to the given address, one
    after the other. A book whose file is missing is skipped; the first
    failed send aborts the rest and fails the request. Whether each file
    exists and what the relay answers to each send are inputs. */
module Dispatcher {
  import opened JsStrings
  import opened NodePath
  import opened Outcomes

  /** A book as the client sends it. */
  datatype Book = Book(filepath: string, title: string, author: string)

  /** A file attached to a mail: the name it is sent under, and where it is read from. */
  datatype Attachment = Attachment(filename: string, path: string)

  /** The options handed to the mail transport. */
  datatype Mail = Mail(from: string, to: string, subject: string, text: string, attachments: seq<Attachment>)

  /** The subject the conversion service expects. */
  const ConvertSubject: string := "Convert"

  /** The mail that carries one book. */
  function ComposeMail(book: Book, from: string, to: string): Mail {
    Mail(from, to, ConvertSubject, book.title + " by " + book.author,
         [Attachment(Basename(book.filepath), book.filepath)])
  }

  /** A book's mail goes from the sender to the recipient with subject
      "Convert", a body naming title and author, and exactly one
      attachment: the book's file, sent under its base name, which holds
      no '/'. */
  lemma MailShape(book: Book, from: string, to: string)
    ensures var m := ComposeMail(book, from, to);
      && m.from == from && m.to == to && m.subject == ConvertSubject
      && m.text == book.title + " by " + book.author
      && |m.attachments| == 1 && m.attachments[0].path == book.filepath
      && m.attachments[0].filename == Basename(book.filepath) && '/' !in m.attachments[0].filename
  {
    BasenameSpec(book.filepath);
  }

  /** Book `k` is sent and its send fails. */
  predicate SendFails(present: seq<bool>, delivery: seq<Outcome>, k: nat)
    requires k < |present| && k < |delivery|
  {
    present[k] && delivery[k].Failed?
  }

  /** The first book whose send fails, if any. */
  function FirstFailure(present: seq<bool>, delivery: seq<Outcome>): (r: Option<nat>)
    requires |delivery| == |present|
    ensures r.Some? ==> r.value < |present| && SendFails(present, delivery, r.value)
    ensures r.Some? ==> forall j :: 0 <= j < r.value ==> !SendFails(present, delivery, j)
    ensures r.None? ==> forall j :: 0 <= j < |present| ==> !SendFails(present, delivery, j)
  {
    FirstFailureFrom(present, delivery, 0)
  }

  function FirstFailureFrom(present: seq<bool>, delivery: seq<Outcome>, i: nat): (r: Option<nat>)
    requires |delivery| == |present| && i <= |present|
    ensures r.Some? ==> i <= r.value < |present| && SendFails(present, delivery, r.value)
    ensures r.Some? ==> forall j :: i <= j < r.value ==> !SendFails(present, delivery, j)
    ensures r.None? ==> forall j :: i <= j < |present| ==> !SendFails(present, delivery, j)
    decreases |present| - i
  {
    if i == |present| then None
    else if SendFails(present, delivery, i) then Some(i)
    else FirstFailureFrom(present, delivery, i + 1)
  }

  /** The mails handed to the transport for the first `n` books: one per
      book whose file exists, in order. */
  function MailsUpTo(books: seq<Book>, present: seq<bool>, from: string, to: string, n: nat): seq<Mail>
    requires |present| == |books| && n <= |books|
  {
    if n == 0 then []
    else
      MailsUpTo(books, present, from, to, n - 1)
      + if present[n - 1] then [ComposeMail(books[n - 1], from, to)] else []
  }

  /** The handler. On a failed send the reply is the transport's error and
      nothing after that book is sent; otherwise the reply counts every
      book asked for, skipped ones included. */
  method SendBooks(books: seq<Book>, email: string, from: string, present: seq<bool>, delivery: seq<Outcome>)
    returns (reply: Reply, handed: seq<Mail>)
    requires |present| == |books| && |delivery| == |books|
    ensures match FirstFailure(present, delivery)
      case Some(k) =>
        && reply == ServerError(delivery[k].message)
        && handed == MailsUpTo(books, present, from, email, k + 1)
      case None =>
        && reply == Ok(SuccessStatus, "Sent " + NatToString(|books|) + " books to " + email)
        && handed == MailsUpTo(books, present, from, email, |books|)
  {
    handed := [];
    var i := 0;
    while i < |books|
      invariant 0 <= i <= |books|
      invariant handed == MailsUpTo(books, present, from, email, i)
      invariant forall j :: 0 <= j < i ==> !SendFails(present, delivery, j)
    {
      if !present[i] {
        i := i + 1;
        continue;
      }
      var mail := ComposeMail(books[i], from, email);
      handed := handed + [mail];
      if delivery[i].Failed? {
        assert handed == MailsUpTo(books, present, from, email, i + 1);
        assert SendFails(present, delivery, i);
        assert FirstFailure(present, delivery) == Some(i);
        reply := ServerError(delivery[i].message);
        return;
      }
      i := i + 1;
    }
    reply := Ok(SuccessStatus, "Sent " + NatToString(|books|) + " books to " + email);
  }

  /** Every mail handed over is the mail of a book whose file exists. */
  lemma {:induction false} OnlyPresentBooksMailed(books: seq<Book>, present: seq<bool>, from: string, to: string, n: nat)
    requires |present| == |books| && n <= |books|
    ensures forall m :: m in MailsUpTo(books, present, from, to, n) ==>
      exists k :: 0 <= k < n && present[k] && m == ComposeMail(books[k], from, to)
  {
    if n > 0 {
      OnlyPresentBooksMailed(books, present, from, to, n - 1);
    }
  }

  /** Every book among the first `n` whose file exists has its mail handed
      over. */
  lemma {:induction false} PresentBooksMailed(books: seq<Book>, present: seq<bool>, from: string, to: string, n: nat)
    requires |present| == |books| && n <= |books|
    ensures forall k :: 0 <= k < n && present[k] ==>
      ComposeMail(books[k], from, to) in MailsUpTo(books, present, from, to, n)
  {
    if n > 0 {
      PresentBooksMailed(books, present, from, to, n - 1);
    }
  }

  /** Each book whose file exists adds one mail, each missing one none. */
  lemma {:induction false} MailCount(books: seq<Book>, present: seq<bool>, from: string, to: string, n: nat)
    requires |present| == |books| && n <= |books|
    ensures |MailsUpTo(books, present, from, to, n)| == |set k | 0 <= k < n && present[k]|
  {
    if n > 0 {
      MailCount(books, present, from, to, n - 1);
      var before := set k | 0 <= k < n - 1 && present[k];
      var now := set k | 0 <= k < n && present[k];
      if present[n - 1] {
        assert now == before + {n - 1};
      } else {
        assert now == before;
      }
    }
  }

  /** With every file present, every book is mailed, in order. */
  lemma {:induction false} AllSent(books: seq<Book>, present: seq<bool>, from: string, to: string, n: nat)
    requires |present| == |books| && n <= |books|
    requires forall k :: 0 <= k < |present| ==> present[k]
    ensures |MailsUpTo(books, present, from, to, n)| == n
    ensures forall k :: 0 <= k < n ==> MailsUpTo(books, present, from, to, n)[k] == ComposeMail(books[k], from, to)
  {
    if n > 0 {
      AllSent(books, present, from, to, n - 1);
      var before := MailsUpTo(books, present, from, to, n - 1);
      var last := ComposeMail(books[n - 1], from, to);
      SentStep(books, present, from, to, n);
      forall k | 0 <= k < n ensures (before + [last])[k] == ComposeMail(books[k], from, to) {
        if k < n - 1 {
          assert (before + [last])[k] == before[k];
        }
      }
    }
  }

  lemma SentStep(books: seq<Book>, present: seq<bool>, from: string, to: string, n: nat)
    requires |present| == |books| && 0 < n <= |books| && present[n - 1]
    ensures MailsUpTo(books, present, from, to, n)
         == MailsUpTo(books, present, from, to, n - 1) + [ComposeMail(books[n - 1], from, to)]
  {
  }

  /** When book `k` is sent, its mail is the last one handed over so far:
      an aborted request ends on the mail that failed. */
  lemma SentBookLast(books: seq<Book>, present: seq<bool>, from: string, to: string, k: nat)
    requires |present| == |books| && k < |books| && present[k]
    ensures MailsUpTo(books, present, from, to, k + 1) != []
    ensures var m := MailsUpTo(books, present, from, to, k + 1);
      m[|m| - 1] == ComposeMail(books[k], from, to)
  {
  }
}
