# geektime-downloader: verified model of the download core

`download.js` logs into 极客时间 (time.geekbang.org) with a browser cookie.
It lists a column's articles through the column API, prints each article
to a PDF with a small pool of browser pages, and merges the chapter PDFs
into one book with a bookmark outline. The browser, the file system and
the PDF library sit around five pieces of plain logic. This project models
those five pieces in Dafny and proves what the program relies on:

- **Cookie parsing** (`cookies.dfy`, on top of the JavaScript string
  operations in `jsstring.dfy`). The `Cookie:` header string becomes one
  cookie record per `;`-separated segment, in order. Each record has domain
  `.geekbang.org` and path `/`. The name is the trimmed text before the
  first `=`, and the value is the rest, trimmed. Any `=` inside a value is
  kept. Parsing a well-formed header gives back the pairs it was built from.
- **Titles** (`titles.dfy`). Article and column titles are cleaned into
  file-safe names:
  - each forbidden character `< > : " / \ | ? *` becomes `_`;
  - each run of white space becomes one `_`;
  - the result is cut to 100 characters.

  Cleaning is idempotent, and its fixed points are exactly the file-safe
  strings. The article cleaning's `|`-to-`-` step never fires, because the
  first step has already removed every `|`.

  The column title has a chain of fallbacks: the five API fields, then the
  first article's two fields, then the second part of the page title, then
  the default `专栏`. API entries are mapped to article records.
- **Chapter file names** (`chapters.dfy`, with JavaScript's default string
  sort in `lexorder.dfy`). Chapter `n` is written as the three-digit
  zero-padded `n`, then `_`, the title and `.pdf`. For ordinals 1 to 999:
  - the name passes the merge stage's filter;
  - the ordinal can be read back from the name;
  - lexicographic order of the names is numeric order of the ordinals.

  From ordinal 1000 on, the name fails the filter. When some downloads
  fail, the merge stage sorts the directory and gets exactly the chapters
  that were written, in article order. This holds under two conditions:
  there are fewer than 1000 articles, and the directory holds no other file
  whose name passes the chapter filter. A stale chapter left by an earlier
  run would pass it. So would a merged book whose column title starts with
  three digits and white space, because cleaning turns it into a
  `NNN_…pdf` name.
- **The download pool** (`scheduler.dfy`). `downloadWithConcurrency` is a
  class `Pool` with a shared cursor, a result slot per article and a
  completion counter. Each worker's steps between two `await`s are methods
  on it. Every interleaving keeps an invariant:
  - the indices handed out are exactly those below the cursor;
  - a result is only written at an index some worker claimed;
  - `completed` counts the written slots, plus the pauses that rejected.

  When every worker has left its loop and there was at least one worker,
  the cursor is at the end, every slot is written, and the success and
  failure counts add up to the number of articles.
- **The merge** (`merge.dfy`). `mergePDFs` filters and sorts the listing,
  then walks the files in a loop, adding up page counts. It records a
  bookmark for file `i` while `articles[i]` exists. It renders the outline
  as `page||title` lines and names the merged file after the column. Each
  bookmark's page is the sum of the page counts before it, so bookmark
  pages ascend. The outline text parses back to the bookmarks.

Recorded behaviour of the code as written:

- **Reading and writing SuccessCount and FailCount:**
  - `SuccessCount` and `FailCount` skip slots that were never written,
    because `filter` skips holes in an array.
  - A pause that rejects after its article was recorded sends control to
    the `catch`. The `catch` overwrites that slot with a failure and counts
    the article a second time. So `completed` ends at the number of
    articles plus the rejected pauses.
- **Pool size:** a zero or negative concurrency opens no page at all, so
  nothing is downloaded. From the command line only a negative value gets
  that far: `main` takes `parseInt(options.concurrency) || 3`
  (download.js:953), so a zero, or text that is not a number, becomes 3.
- **The finding below:** bookmark titles are taken by sorted file position
  rather than by chapter ordinal.

## Model

| member | source | states |
|---|---|---|
| Cookies.ParseCookies | download.js:229-237 | exactly one cookie per `;`-separated segment (the number of `;` plus one), the i-th cookie parsed from the i-th segment |
| Cookies.ParseCookie | download.js:230-236 | the name is the trimmed segment's text before its first `=`, trimmed; the value is everything after that `=`, trimmed, so later `=` survive; domain `.geekbang.org`, path `/` |
| Cookies.ParsedCookiesAreScoped | download.js:229-236 | every parsed cookie carries domain `.geekbang.org` and path `/`, and its name and value have no surrounding white space |
| Cookies.ParseHeader | download.js:228-238 | parsing the header `n1=v1; n2=v2; ...` built from trimmed names without `=` or `;` and trimmed values without `;` gives back exactly those pairs, in order |
| Cookies.ParseSegment | download.js:230-233 | one `name=value` segment of a header, with the space after its `;`, parses to that name and value |
| JsString.IsSpace | download.js:330 | the characters `\s` matches, which are also the ones `trim` strips (download.js:230, 351): ECMAScript white space and line terminators |
| JsString.TrimStart | download.js:230 | the result is a suffix of the input that does not start with white space, and only white space was removed |
| JsString.TrimEnd | download.js:232-233 | the result is a prefix of the input that does not end with white space, and only white space was removed |
| JsString.TrimIsTrimmed | download.js:230 | `trim()` leaves no white space at either end |
| JsString.TrimRemovesSpaceOnly | download.js:230 | `trim()` returns an infix of its input, and everything outside that infix is white space |
| JsString.TrimFixedPoints | download.js:315 | `trim()` leaves a string unchanged exactly when it has no white space at either end |
| JsString.LeadingSpaceTrimmed | download.js:230 | white space in front of an already trimmed string is all that `trim()` removes |
| JsString.Trim | download.js:230 | `trim()`; `JsString.TrimIsTrimmed` and `JsString.TrimRemovesSpaceOnly` state what it returns |
| JsString.Join | download.js:233 | `join` with a one-character separator; `JsString.SplitJoin` and `JsString.SplitProperties` prove it inverse to `split` |
| JsString.Split | download.js:229 | `split` on one character, also used at download.js:230 and :315; `JsString.SplitProperties` fixes the pieces |
| JsString.SplitProperties | download.js:229 | `split` on one character gives one piece more than there are separators, no piece contains the separator, and joining the pieces gives back the string |
| JsString.SplitHead | download.js:230-233 | the first piece is the text before the first separator, and the other pieces joined with the separator are the text after it |
| JsString.SplitJoin | download.js:229 | splitting a join of separator-free pieces gives back those pieces |
| JsString.SplitAfterPiece | download.js:229 | a separator-free piece followed by the separator splits off as the first piece |
| JsString.IndexOf | download.js:230 | the position of the first occurrence of the character, or the length when there is none |
| JsString.FirstAfterPiece | download.js:230 | in a string with no `=` before a given one, the name ends at that `=` and the value is what follows it |
| JsString.Decimal | download.js:561 | `String(n)` of a non-negative integer is a non-empty string of decimal digits, and it starts with `0` only for 0 itself |
| JsString.DecimalCanonical | download.js:561 | every digit string without a leading zero is `String` of its value, so with `JsString.DecimalRoundTrip` the decimal text of each number is the only such spelling of it (the ordinal at :561, the id at :357, the page number at :782) |
| JsString.DecimalRoundTrip | download.js:561 | reading the digits of `String(n)` back gives `n` |
| JsString.DecimalLength | download.js:561 | `String(n)` has one, two or three digits below 10, 100 or 1000, and at least four from 1000 on |
| JsString.PadStart | download.js:561 | `padStart` keeps the string as a suffix, fills only in front, and gives the requested width unless the string is already longer |
| Titles.IsForbidden | download.js:329 | the nine characters of the regular-expression class: `<>:"/\?*` and the pipe, used at download.js:329 and :350 |
| Titles.ReplaceForbidden | download.js:329 | same length, each forbidden character replaced by `_` and every other character kept in place |
| Titles.CollapseSpaces | download.js:330 | no white space survives, the result is no longer than the input, and every character in it is `_` or came from the input |
| Titles.CollapseSpacesPrefix | download.js:330 | a stretch without white space is kept unchanged in front of whatever collapsing makes of the rest |
| Titles.CollapseSpacesRun | download.js:330 | a maximal run of white space that follows a stretch without any becomes exactly one `_` in its place, and collapsing continues after the run |
| Titles.CollapseSpacesIdentity | download.js:330 | a string without white space is left unchanged |
| Titles.ReplacePipe | download.js:352 | same length, each vertical bar replaced by `-`, everything else kept |
| Titles.Truncate | download.js:331 | `substring(0, n)`: a prefix of the string, the whole string when it has at most `n` characters, and exactly its first `n` characters otherwise |
| Titles.CleanColumnTitle | download.js:328-331 | the cleaned title is file-safe (at most 100 characters, no forbidden character, no white space), and a non-empty title stays non-empty |
| Titles.CleanArticleTitle | download.js:349-353 | the article cleaning; `Titles.PipeStepIsDead` proves it equal to the column cleaning, so it inherits the file-safe result of `Titles.CleanColumnTitle` |
| Titles.CleanIntroducesOnlyUnderscore | download.js:328-331 | cleaning adds no character except `_` |
| Titles.CleanInPlace | download.js:328-331 | a short title without white space keeps its length, with only its forbidden characters changed to `_` |
| Titles.CleanFixedPoints | download.js:328-331 | cleaning leaves a title unchanged exactly when the title is already file-safe |
| Titles.CleanIdempotent | download.js:349-353 | cleaning a cleaned title changes nothing, for both the column and the article cleaning |
| Titles.PipeStepIsDead | download.js:349-353 | the article cleaning equals the column cleaning: the step turning vertical bars into `-` never changes anything, so no vertical bar ever becomes `-` |
| Titles.Or | download.js:298-302 | JavaScript logical or on strings: the left operand unless it is empty, as used at download.js:298-307, 325 and 345 |
| Titles.FirstNonEmptyIsFirst | download.js:298-302 | a chain of JavaScript `or` operators over strings is empty exactly when all its operands are, and otherwise it is the first non-empty operand |
| Titles.ApiColumnTitle | download.js:298-308 | the column title taken from the API response; `Titles.ApiColumnTitleIsFirstNonEmpty` proves it is the first non-empty candidate |
| Titles.PageTitleColumn | download.js:313-318 | the second `-`-separated part of the page title, trimmed, when there are at least two parts; `Titles.PageTitleWithDash` proves when it exists |
| Titles.RawColumnTitle | download.js:298-325 | the column title before cleaning; `Titles.ColumnTitleFallback` proves its order of fallbacks |
| Titles.ApiColumnTitleIsFirstNonEmpty | download.js:298-308 | the title the API gives is the first non-empty of the five column fields and then the first article's two fields, if there is a first article |
| Titles.ColumnTitleFallback | download.js:298-325 | the raw column title is the API title unless that is empty or `专栏`; then it is the page title's second part if that is non-empty; otherwise it is `专栏` |
| Titles.PageTitleWithDash | download.js:315-318 | the page title supplies a column title exactly when it contains a `-` |
| Titles.CountPositive | download.js:316 | a string splits into at least two parts exactly when it contains the separator |
| Titles.IdText | download.js:357 | the text `${id}` puts in the article URL: the decimal digits of the id, or `undefined` when there is none |
| Titles.ToArticle | download.js:344-360 | the original title is the article title, else the share title, else `Untitled`; it is never empty; the title is its file-safe cleaning; the id is kept; the URL is the article prefix followed by the id |
| Titles.ArticleList | download.js:292-361 | a response without a list gives no articles and column `unknown`; otherwise one article per API entry, in order, with the cleaned fallback column title, which is always non-empty and file-safe |
| LexOrder.LexLe | download.js:733 | the comparison the default `sort()` uses: code-point order, with a proper prefix first; the LexOrder lemmas prove it a total order |
| LexOrder.LexReflexive | download.js:733 | the default string order is reflexive |
| LexOrder.LexTotal | download.js:733 | the default string order is total |
| LexOrder.LexAntisymmetric | download.js:733 | the default string order is antisymmetric |
| LexOrder.LexTransitive | download.js:733 | the default string order is transitive |
| LexOrder.LexCommonPrefix | download.js:733 | a common prefix does not change the order of two strings |
| LexOrder.LexFirstDifference | download.js:733 | at the first differing character, the smaller character makes the smaller string |
| LexOrder.Insert | download.js:733 | inserting into a sorted sequence keeps it sorted and adds exactly that string |
| LexOrder.Sort | download.js:733 | `sort()` returns its input's strings, as a permutation, in ascending order |
| LexOrder.SortedUnique | download.js:733 | two sorted arrangements of the same strings are the same sequence |
| LexOrder.SortIgnoresOrder | download.js:733 | sorting depends only on which strings there are, not on the order they came in |
| Chapters.ChapterFileName | download.js:561 | a chapter's file name; its shape, filter result, ordinal and sort order are proved by the `Chapters` lemmas below |
| Chapters.MergeOrder | download.js:731-733 | the list of files to merge is sorted and holds exactly the directory's names that pass the chapter filter, each as often as it is listed |
| Chapters.PassesMergeFilter | download.js:732 | the filter callback: the name ends in `.pdf` and starts with three decimal digits and `_` |
| Chapters.Filter | download.js:732 | the kept names all pass the chapter filter, and each passing name is kept as often as it occurs |
| Chapters.MergeOrderIgnoresListingOrder | download.js:730-733 | the chapter files merged do not depend on the order in which the directory is listed |
| Chapters.PaddedOrdinal | download.js:561 | below 1000, `String(n).padStart(3, '0')` is exactly the three digits of `n` |
| Chapters.ChapterNameBelow1000 | download.js:561 | for an ordinal below 1000 the file name is three digits, `_`, the title and `.pdf`, and it passes the merge filter |
| Chapters.ChapterNameFrom1000 | download.js:561 | for an ordinal of 1000 or more the file name fails the merge filter, so that chapter is never merged |
| Chapters.ChapterNamesInOrdinalOrder | download.js:561 | for ordinals a < b < 1000 the name of chapter a sorts strictly before the name of chapter b, whatever the titles |
| Chapters.OrdinalRoundTrip | download.js:561 | the ordinal can be read back from the first three characters of a chapter's file name |
| Chapters.SucceededIndices | download.js:392 | the indices of the downloads that succeeded, strictly ascending, each one true and all of them present |
| Chapters.WrittenFiles | download.js:392 | one file per successful download, in article order, named after ordinal index + 1 and that article's title |
| Chapters.WrittenFilesSorted | download.js:733 | for fewer than 1000 articles the written chapter names are already in sorted order and all pass the filter |
| Chapters.MergeOrderIsArticleOrder | download.js:730-733 | with fewer than 1000 articles, filtering and sorting a directory that holds the written chapters plus only files failing the chapter filter gives exactly the written chapters, in article order |
| Chapters.MergedFileCanLookLikeChapter | download.js:807 | a cleaned column title starting with three digits and `_` gives a merged file name that the chapter filter takes |
| Merge.CleanedTitleCanLookLikeChapter | download.js:328-331 | a raw column title of three digits, then white space, then anything cleans to a title whose merged file passes the chapter filter |
| Scheduler.PoolSize | download.js:377-380 | the number of pages opened is the smaller of concurrency and article count when concurrency is positive, and zero exactly when concurrency is not positive or there are no articles |
| Scheduler.FilledAll | download.js:393 | every slot is written exactly when the written count equals the number of slots |
| Scheduler.FilledUpdate | download.js:393 | writing a slot raises the written count by one exactly when the slot was empty |
| Scheduler.SuccessCount | download.js:967 | the number of successful results, never more than the written slots |
| Scheduler.FailCount | download.js:968 | the number of failed results, never more than the written slots |
| Scheduler.CountsPartition | download.js:967-968 | the success count plus the failure count is the number of written slots |
| Scheduler.PendingUpdate | download.js:386-432 | the outstanding work changes only by the one worker whose state changes |
| Scheduler.ClaimKeepsConsistent | download.js:387-388 | claiming the next index keeps every in-flight index claimed, unwritten and owned by one worker |
| Scheduler.RecordKeepsConsistent | download.js:392-394 | recording a result keeps every in-flight index consistent, while the recorded one becomes written |
| Scheduler.ResumeKeepsConsistent | download.js:417-419 | ending a pause keeps the worker states consistent |
| Scheduler.PauseFailedKeepsConsistent | download.js:420-422 | a rejected pause rewriting its recorded slot keeps the worker states consistent |
| Scheduler.Pool.constructor | download.js:368-384 | the pool opens `min(concurrency, articles)` idle workers, with the cursor at 0, no slot written and `completed` at 0 |
| Scheduler.Pool.CanStep | download.js:387 | a worker can move on when it awaits a download or a pause, or when it is at the loop test and `currentIndex < articles.length` |
| Scheduler.Pool.Claim | download.js:387-388 | the index handed out is the old cursor, never handed out before; the cursor advances by one and nothing else changes |
| Scheduler.Pool.Record | download.js:392-394 | the result lands in the slot the worker claimed, which was still empty, and nowhere else; `completed` rises by one; the worker pauses exactly when articles remain |
| Scheduler.Pool.Resume | download.js:417-419 | the worker returns to its loop test and nothing else changes |
| Scheduler.Pool.PauseFailed | download.js:420-422 | the recorded slot is overwritten with a failure carrying the article's title and the error message, and `completed` rises a second time for that article |
| Scheduler.Pool.Step | download.js:386-432 | one step of worker `w` and of no other: an idle worker claims the next index by advancing the cursor; a worker downloading writes its outcome to its slot, adds one to `completed` and pauses only if articles remain; a rejected pause writes the failure the `catch` builds and counts the article again; a resolved pause only returns the worker to its loop test. The cursor, `completed` and the set of rejected pauses never decrease, `completed` rises by at most one, the pool invariant holds and the work remaining strictly drops, so the workers always drain |
| Scheduler.Pool.Drained | download.js:436 | `Promise.all` over the workers resolves: no worker can take another step |
| Scheduler.Pool.DrainedComplete | download.js:436-443 | once no worker can step and there was a worker: the cursor is at the end, every slot is written, `completed` is the article count plus rejected pauses, and successes plus failures are the article count |
| Scheduler.RunPool | download.js:368-444 | under any interleaving, with pauses that resolve or reject, and with at least one worker: every slot is written, each with its article's outcome or, after a rejected pause, the `catch`'s failure; successes plus failures equal the article count; `completed` lies between the article count and the article count plus the number of rejecting pauses. With no worker nothing is written and `completed` is 0. When no pause rejects, successes plus failures equal `completed` |
| Merge.SumPrefixMonotone | download.js:745-766 | the running page counter never decreases, and it strictly increases when every file has at least one page |
| Merge.Bookmarks | download.js:744-767 | one bookmark per file while `articles[i]` exists; bookmark i has article i's original title, else its title, and the page index is the sum of the page counts of files 0..i-1 |
| Merge.BookmarkPagesAscend | download.js:744-767 | bookmark page indices never decrease, and they strictly increase when every file has at least one page |
| Merge.PageCountsStep | download.js:748-767 | one loop iteration adds the file's page count to the counter and appends at most one bookmark, at the counter's old value |
| Merge.CombineChapters | download.js:748-767 | the loop succeeds exactly when every file's page count is known, and then yields the total page count and the bookmarks |
| Merge.BookmarkTitle | download.js:758 | a bookmark's title; `Merge.Bookmarks` states where it is used |
| Merge.OutlineLine | download.js:782 | one outline line: the one-based page number, two vertical bars, then the title (OutlineLineRoundTrip reads it back) |
| Merge.OutlineText | download.js:781-783 | the outline text; `Merge.OutlineRoundTrip` proves it has one line per bookmark and parses back |
| Merge.OutlineLineRoundTrip | download.js:782 | an outline line (page number, two vertical bars, title) parses back to its bookmark |
| Merge.OutlineRoundTrip | download.js:781-783 | the outline has one line per bookmark, in order, and parses back to the bookmarks when no title contains a line break |
| Merge.MergePdfs | download.js:725-831 | a merge happens exactly when some listed file passes the chapter filter and all their page counts are known; then the file is the column title plus `.pdf`, with summed pages, one chapter per filtered file in sorted order, the position-indexed bookmarks, an outline only when there are bookmarks and the outline step accepts, and the chapter files deleted exactly when asked |
| Merge.BookmarkTitleShiftsAfterFailure | download.js:756-758 | with three articles of which the second failed, the second merged file is chapter 3, but its bookmark carries article 2's title |
| Merge.BookmarksByOrdinalMatchArticles | download.js:756-758 | bookmarks titled by the file's ordinal give each written chapter its own article's title, at the running page counter |
| Merge.NoFailureNoShift | download.js:756-758 | when every download succeeds, bookmarks by ordinal and by sorted position are the same |
| Merge.WrittenFilesOrdinals | download.js:392 | the k-th written chapter's ordinal is the k-th successful index plus one |

## Left out

- The browser work: Playwright navigation, `waitForSelector`, `page.pdf`, the DOM rewrite inside `page.evaluate`, and the print CSS. These run in a browser.
- `downloadArticleSilent` and `downloadArticle`: they are browser and file-system work. What a download settles to is a parameter of the pool (`outcome[i]`), and its ordinal is modelled by `Chapters.WrittenFiles`.
- The PDF library (`PDFDocument.load`, `copyPages`, `save`) and `outlinePdf`. Each file's page count is an input map, and whether the outline step accepts the text is an input flag.
- File system calls (`readdir`, `readFile`, `writeFile`, `unlink`, `mkdir`) and `path.join`. The directory listing is an input. A rejected read, write or delete, which the `catch` at download.js:826-830 turns into `null`, is not modelled except for a missing page count.
- The wall-clock delays. These are timing only, and a delay is modelled as a pause that resolves or rejects.
- The 10-second API timeout (download.js:269-272). It is an error path: when the race rejects, `getArticleList` throws (download.js:279-280) unless the run is shutting down, and `main`'s `catch` (download.js:988-998) reports the error and exits with status 1. The model starts from the parsed response in `Titles.ArticleList`, so a timed-out request is outside it.
- `ora` and `chalk` progress output, and the DEBUG logging. These are user interface only; a throw from the progress output inside the `try` is not modelled.
- Signal handling, the shutdown flags and the shutdown branch at download.js:273-278. This is process lifecycle.
- Command-line and config parsing, including `parseInt` and the concurrency default. The concurrency reaches the pool as an integer parameter.
- The API response's raw JSON. A missing, `null` or empty text field is the empty string, since all three are falsy and behave alike. A missing id is `None`, which the URL renders as `undefined`; other JSON value types are not modelled.
- Strings are sequences of Unicode code points, not UTF-16 code units, so `substring(0, 100)` and `sort()` are modelled on code points; they differ only for characters outside the Basic Multilingual Plane.
- Scheduler.RunPool: bounds `completed` rather than giving its exact value. A pause happens only when articles remain at the time, so which rejecting pauses take place depends on the interleaving.
- Merge.MergePdfs: the bookmark page count is the sum of the input counts; the pages themselves are not modelled.

## Findings

| source | as written | input that shows it | evidently intended | confidence | as-written member | corrected member |
|---|---|---|---|---|---|---|
| download.js:756-758 | the bookmark for the i-th sorted chapter file takes its title from `articles[i]`, the i-th article of the whole column | three articles where the second download fails: the merged files are chapters 1 and 3, and the second bookmark is titled with article 2's title while it points at chapter 3 | each bookmark takes the title of the article whose ordinal is in the file's name, so a failure shifts no title | not executed | Merge.BookmarkTitleShiftsAfterFailure | Merge.BookmarksByOrdinalMatchArticles |

`Merge.MergePdfs` keeps the position-indexed bookmarks of the code as
written. `Merge.BookmarksByOrdinal` is the corrected definition. When no
download fails the two agree (`Merge.NoFailureNoShift`).
