# Kindle converter server: verified model of its core rules

This project models the core of the kindle-converter API server, `api/server.js`:

- **The book-name parser.** `parseBookInfo` takes the path of an e-book file and derives its metadata:
  - the base name;
  - the author and title, either from the "Author - Title.epub" naming convention or, when the name does not follow it, from a cleaned-up title and the enclosing folder;
  - the format.
- **The library scan.** `/api/sync-library` builds the catalog from the listing printed by `find`. It has one entry per non-empty line, numbered in listing order and marked "ready".
- **The two delete handlers.**
  - `/api/delete-book` removes one file. It retries with `sudo` when the plain removal fails.
  - `/api/delete-books` removes every file of a list. It never stops early, counts the successes and always answers "success".
  - Both also remove the ".mobi" sibling of an ".epub" file.
- **The send handler.** `/api/send-books` mails the selected books one after the other. A book whose file is missing is skipped, and the first failed send aborts the request.

## Modules

- `JsStrings` models the JavaScript string primitives the server relies on:
  - `indexOf`/`includes`;
  - `split` with a string separator (leftmost, non-overlapping matches);
  - `replace` with a string pattern, which replaces the first occurrence only;
  - `trim`, with the ECMAScript white-space and line-terminator set;
  - the decimal rendering of a count in a template string.
- `NodePath` models Node's POSIX `path.basename` and `path.dirname`. It follows Node's own algorithm, trailing slashes included.
- `BookInfo` models `parseBookInfo`. The regular expressions become explicit functions:
  - the end-anchored, case-insensitive extension strip;
  - the global dot replacement;
  - the white-space collapse.
- `Catalog` models the split, filter and map of the scan handler.
- `Outcomes` holds the shared outcome and reply types.
- `Remover` models the two delete handlers.
- `Dispatcher` models the send handler.

## How the model treats the outside world

Every effect of the server on the outside world is an input to the model:

- the listing `find` prints, or its error;
- the answer of each `rm`, `sudo rm` and `fs.access`;
- the answer of each `sendMail`.

The delete and send handlers are methods. Each returns what the server replies and which commands it ran (or which mails it handed to the transport), and each is proved against a specification function. The scan handler runs no loop of its own. It is the function `Catalog.SyncLibrary`, from the listing (or its error) to the reply, built from `split`, `filter` and `map`.

## Behaviour worth noting

- **A failed removal of the ".mobi" sibling.** The comment at api/server.js:160 says the handler will "try" to delete the sibling. The removal of the sibling, however, sits in the same `try` block as the removal of the book itself, so its failure counts as a failure of the whole removal:
  - In `/api/delete-books`, such a path counts as failed, even though the book itself is gone.
  - In `/api/delete-book`, it sends the handler to the `sudo` retry of the primary path.
- **The sibling path.** It comes from replacing the first ".epub" anywhere in the path, not the extension. `Remover.SiblingOfDottedDirectory` shows the consequence: under a directory whose name contains ".epub", the computed sibling is a path in another directory that still ends in ".epub".
- **The send count.** The success message of `/api/send-books` reports `books.length`, so it counts every book asked for, skipped ones included.

## Model

| member | source | states |
|---|---|---|
| JsStrings.IndexOfSpec | api/server.js:58 | `indexOf` finds the leftmost occurrence of the pattern; it finds none exactly when the pattern occurs nowhere (this is `includes`) |
| JsStrings.SplitJoin | api/server.js:40 | joining the pieces of `split` with the separator gives the string back |
| JsStrings.SplitPiecesExcludeSeparator | api/server.js:40 | no piece of `split` contains the separator |
| JsStrings.SplitSingle | api/server.js:40-44 | `split` gives a single piece exactly when the separator does not occur, so `parts.length > 1` tests for the separator |
| JsStrings.SplitAtFirst | api/server.js:40 | the first piece is the text before the leftmost occurrence, and the rest is the split of the text after it |
| JsStrings.ReplaceFirstSpec | api/server.js:125 | `replace` with a string pattern changes only the leftmost occurrence, and leaves a string without one unchanged |
| JsStrings.TrimStartSpec | api/server.js:55 | the leading cut is all white space, and what is kept starts with a non-white-space character |
| JsStrings.TrimEndSpec | api/server.js:55 | the trailing cut is all white space, and what is kept ends with a non-white-space character |
| JsStrings.NatToStringRoundTrip | api/server.js:138 | the decimal digits of a count read back as that count |
| NodePath.DropTrailingSlashesSpec | api/server.js:35 | `basename` ignores exactly the run of trailing '/' characters |
| NodePath.LastSlashSpec | api/server.js:35-36 | the separator found is the last '/' of the path, and none is found only when there is no '/' |
| NodePath.BasenameSpec | api/server.js:35 | the base name holds no '/' and ends the path, trailing '/' characters aside |
| NodePath.JoinedPath | api/server.js:35-36 | for `dir/name`, `basename` is `name` and `dirname` is `dir` (with Node's "/" and "//" cases) |
| NodePath.TopLevelDirectory | api/server.js:35-36 | for a file directly under the root, `basename` is its name, `dirname` is "/", and the base name of that is empty |
| NodePath.NoSlash | api/server.js:35-36 | a path without '/' is its own base name and has "." as its directory |
| NodePath.TrailingSlashIgnored | api/server.js:35-36 | a trailing '/' changes neither `basename` nor `dirname` |
| BookInfo.ParseBookInfo | api/server.js:34-74 | the record echoes the path and its base name; the format is mobi exactly when the path ends with ".mobi" |
| BookInfo.UpperCaseMobiIsEpub | api/server.js:37 | ".MOBI" is reported as epub, because the suffix test is case-sensitive |
| BookInfo.DotsToSpacesSpec | api/server.js:53 | every '.' becomes a space, and every other character stays in place |
| BookInfo.StripBookExtensionAppended | api/server.js:47 | stripping one ".epub"/".mobi" in any letter case gives the stem back, and a second extension under it stays |
| BookInfo.CollapseSpec | api/server.js:54 | after the collapse there are no two white-space characters in a row, the only white space is ' ', and the result is empty only for empty input |
| BookInfo.CollapseRun | api/server.js:54 | a maximal run of white space, between text that does not extend it, becomes exactly one space, and the text on either side is collapsed on its own |
| BookInfo.CollapseKeepsWord | api/server.js:54 | characters other than white space pass through the collapse unchanged |
| BookInfo.CollapseIdempotent | api/server.js:54 | collapsing twice is collapsing once |
| BookInfo.CollapseLeavesNormalText | api/server.js:54 | text whose white space is only single spaces is left unchanged |
| BookInfo.CleanTitleSpec | api/server.js:51-55 | the cleaned title is the words of the name (its maximal runs of characters other than '.' and white space), extension removed, joined by single spaces; so it has no '.', no two white-space characters in a row and no white space at either end, and keeps the name's other characters in order |
| BookInfo.CleanTitleWords | api/server.js:51-55 | extension strip, dot replacement, collapse and trim together give the words of the name joined by single spaces |
| BookInfo.WordsOfDots | api/server.js:53 | turning dots into spaces leaves the words of a name as they were |
| BookInfo.TrimmedWords | api/server.js:54-55 | on text without dots, collapse and trim give its words joined by single spaces |
| BookInfo.WordsSpec | api/server.js:51-55 | every word is non-empty and holds neither '.' nor white space |
| BookInfo.TrimKeepsShape | api/server.js:55 | `trim` keeps the no-adjacent-white-space and no-dot properties and the visible characters |
| BookInfo.SeparatorAuthor | api/server.js:40-46 | with " - " in the base name, the author is the text before its leftmost occurrence |
| BookInfo.SeparatorTitleBetween | api/server.js:44-47 | with " - " twice or more, the title is only the second piece, one extension stripped |
| BookInfo.SeparatorTitleToEnd | api/server.js:44-47 | with " - " exactly once, the title is everything after it, one extension stripped |
| BookInfo.SlashGuardNeverFires | api/server.js:58 | the test `dirName.includes('/')` is never true, since a base name holds no '/' |
| BookInfo.NoSeparatorTitle | api/server.js:48-64 | without " - ", the title is the words of the name, extension removed, joined by single spaces; it has no '.', no two white-space characters in a row and no white space at either end |
| BookInfo.NoSeparatorAuthor | api/server.js:58-64 | without " - ", the author is the directory's base name when it is non-empty and not "Books", else "Unknown"; the title is the cleaned name |
| BookInfo.ConventionalName | api/server.js:40-46 | in "author - title.ext", the leftmost separator sits right after the author when "author -" holds no " - " (the author neither contains " - " nor ends in " -"), and none follows when the title holds none |
| BookInfo.ConventionRoundTrip | api/server.js:34-74 | a file named "author - title.ext" (ext ".epub" or ".mobi") in any directory parses back to that author and title, in the format of its extension, whenever author and title hold no '/', the title holds no " - ", and the author neither contains " - " nor ends in " -"; hyphens are allowed, as in "Jean-Paul Sartre - Nausea.epub" |
| BookInfo.FolderAuthor | api/server.js:57-60 | a name without " - " in a folder other than "Books" gets the folder as author and the cleaned name as title |
| BookInfo.LibraryRootAuthor | api/server.js:58-64 | a name without " - " directly in "Books" gets the author "Unknown" |
| BookInfo.TopLevelAuthor | api/server.js:58-64 | a name without " - " at the file-system root (empty directory base name) gets the author "Unknown" |
| BookInfo.ExampleWithTwoSeparators | api/server.js:42-47 | "/books/A - B - C.epub" gives author "A" and title "B" |
| BookInfo.DottedName | api/server.js:51-55 | "a.tale.epub" is cleaned to "a tale" |
| BookInfo.ExampleWithoutSeparator | api/server.js:49-60 | "/Books/misc/a.tale.epub" gives author "misc" and title "a tale" |
| Catalog.NonEmpty | api/server.js:86 | `filter(f => f)` keeps only non-empty strings, each from the input |
| Catalog.NonEmptyAppend | api/server.js:86 | the filter of a concatenation is the concatenation of the filters, so the order of the kept strings is the input's |
| Catalog.NonEmptySingle | api/server.js:86 | one string is kept exactly when it is non-empty |
| Catalog.NonEmptyKeeps | api/server.js:86 | every non-empty string of the input is kept |
| Catalog.Lines | api/server.js:86 | every line of the listing is non-empty and holds no newline |
| Catalog.MakeEntry | api/server.js:90-97 | entry `id` carries that id, status "ready", the time read, and the parsed path, base name, author, title and format |
| Catalog.BuildCatalog | api/server.js:86-98 | one entry per non-empty line, in order; entry `i` has id `i`, status "ready" and the parse of line `i` |
| Catalog.SyncLibrary | api/server.js:82-106 | a failed listing gives the error and no catalog; otherwise the reply is the catalog of the listing |
| Catalog.ListingRoundTrip | api/server.js:82-86 | reading back newline-terminated paths gives the paths, in order |
| Catalog.CatalogFollowsListing | api/server.js:86-98 | the catalog of a listing of paths has one entry per path, in order, numbered from 0, all "ready" |
| Catalog.BlankListingEmptyCatalog | api/server.js:86-102 | an empty listing, or one of blank lines only, gives an empty catalog and not an error |
| Remover.SiblingOfPlainPath | api/server.js:124-125 | when ".epub" occurs only as the extension, the sibling is the path with a ".mobi" extension |
| Remover.SiblingOfDottedDirectory | api/server.js:125 | an earlier ".epub" in the path is the one replaced, and the computed sibling still ends in ".epub" |
| Remover.PlainDelete | api/server.js:156-165 | the plain removal succeeds exactly when the primary `rm` and, for ".epub", the sibling `rm` succeed; the sibling is tried only after the primary succeeds |
| Remover.DeleteBook | api/server.js:156-180 | success exactly when the plain removal or the `sudo` retry succeeds; `sudo` runs, on the primary only, exactly when the plain removal failed; the error begins "Cannot delete file: " |
| Remover.DeleteBooks | api/server.js:115-141 | status is always "success"; deleted counts the plain successes; deleted + failed is the number of paths; the commands are every path's plain removal, in order |
| Remover.CountDeletedCountsSuccesses | api/server.js:128-131 | the deleted count is the number of paths whose plain removal succeeds |
| Remover.CountDeletedExtremes | api/server.js:115-141 | the count equals the number of paths exactly when all succeed, and is zero exactly when none does |
| Remover.EveryPathAttempted | api/server.js:120-122 | the bulk handler runs `rm` on every path of the list |
| Remover.BulkNeverEscalates | api/server.js:120-133 | the bulk handler never runs `sudo` |
| Dispatcher.MailShape | api/server.js:207-216 | a book's mail has subject "Convert", body "title by author", and one attachment: the file, under its base name |
| Dispatcher.FirstFailure | api/server.js:221-230 | the first book whose file exists and whose send fails, and no earlier one |
| Dispatcher.SendBooks | api/server.js:194-236 | on the first failed send, the reply is its error and the mails handed over stop at that book; otherwise the reply is "Sent N books to email" with N all books |
| Dispatcher.OnlyPresentBooksMailed | api/server.js:197-216 | every mail handed over is the mail of a book whose file exists |
| Dispatcher.PresentBooksMailed | api/server.js:194-222 | every book whose file exists is mailed |
| Dispatcher.MailCount | api/server.js:197-222 | exactly one mail per book whose file exists |
| Dispatcher.AllSent | api/server.js:194-231 | with every file present, the mails are those of all the books, in order |
| Dispatcher.SentBookLast | api/server.js:221-229 | when a book is sent, its mail is the last one handed over so far, so an aborted request ends on the mail that failed |

## Left out

- Express routing, CORS, JSON body parsing, `multer` and `app.listen`: framework plumbing.
- Running `find`, `rm -f`, `sudo rm -f` and `fs.access`. Their answers are inputs. That `rm -f` succeeds on a missing file, which makes deletion idempotent, is shell behaviour and is not derived.
- Shell quoting and injection through the interpolated paths.
- The `find` command line, its root directory and its `*.epub` filter. The listing is an input, and nothing in the model assumes its lines end in ".epub".
- The nodemailer transport and the SMTP settings read from the environment, including the sender fallback. The sender is a parameter.
- The `/api/test-email` and `/api/health` endpoints, which do no more than talk to the transport or read the clock.
- `new Date().toISOString()`. The time read for entry `i` is the parameter `addedAt(i)`.
- All console logging.
- Malformed request bodies. A missing `filepaths` or `books` field throws into the outer `catch`, and the model takes the fields as given sequences.
- Error objects are reduced to their message strings, because the handlers reply with `error.message` only.
- Strings are sequences of Dafny characters. JavaScript's UTF-16 code units, such as the two halves of a surrogate pair, are not told apart, and there is no Unicode normalisation.
- Windows path separators. `NodePath` is the POSIX flavour only.
