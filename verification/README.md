# Assessment monitor: ingestion and change detection in Dafny

This project models the decision logic of a scheduled job that watches the Egyptian
Ministry of Education's e-library for new secondary-school assessments. It covers two
programs.

- **main.py** runs in six steps:
  - It fetches the site's script and finds the `const books = [ ... ];` literal.
  - It cleans that literal into Python syntax and hands it to a literal parser.
  - It keeps the records that are assessments and whose link it has not seen yet.
  - It sorts them into first-grade and second-grade items, each with the id of its subject and the week number from its type text.
  - It uploads them to Firebase and announces them on Telegram in messages of at most 20 lines.
  - It appends their links to a history file.
- **monitor.py** scrapes the PDF links of a listing page and compares them with a snapshot file. It alerts on the links that are new, then replaces the snapshot with the current links in sorted order.

Modules, in dependency order:

| file | module | what it holds |
|---|---|---|
| text.dfy | `Options`, `Text` | `Option`; Python's `\s` and `\d` classes, `strip`, `in`, `startswith`, `endswith`, `replace(p, "")`, the subsequence order |
| extract.dfy | `Extract` | the `re.search` for the `books` assignment, as a leftmost match |
| normalize.dfy | `Normalize` | the cleanup passes; the key-quoting pass as written and as corrected |
| week.dfy | `Week` | `parse_week` |
| subjects.dfy | `Subjects` | the two subject tables and the lookup that falls back to `"0"` |
| classify.dfy | `Classify` | `process_items`: a reference definition per grade, and the loop |
| dispatch.dfy | `Dispatch` | Telegram chunking and part headers; Firebase writes and keys |
| history.dfy | `History` | history files as text: universal-newline reading, the append store of main.py, the sorted snapshot store of monitor.py |
| monitor.dfy | `Monitor` | the PDF filter, display names, alerts and one run of `monitor_website` |
| pipeline.dfy | `Pipeline` | `fetch_moe_data` and one run of `main` |

### How the outside world appears

Calls into the outside world are parameters of the model:

- The HTTP response is an `Option<string>`. None stands for a failed request.
- `ast.literal_eval` is a function `string -> Option<seq<Record>>`. None means it raised.
- The browser session is an `Option<seq<string>>` holding the hrefs it found. None means it raised.
- The two environment variables are booleans.

A history file is `Missing` or `Present(text)`. Line splitting is part of the model because the two programs split differently:

- main.py iterates over the file's lines and strips each one.
- monitor.py uses `read().splitlines()`.

Both read in universal-newline mode.

### Digits in the week pattern

The week pattern `\((\d+)\)` at main.py:134 is a `str` pattern, so its `\d` matches any Unicode decimal digit, not only ASCII ones. The model accepts ASCII, Arabic-Indic and Extended Arabic-Indic digits (`Text.IsDigit`).

## Model

| member | source | states |
|---|---|---|
| Text.Strip | main.py:145 | `strip()` returns the infix left after removing `isspace` characters from both ends; the result neither starts nor ends with whitespace |
| Text.StripIdempotent | main.py:88 | stripping an already stripped line changes nothing |
| Text.RemoveAll | monitor.py:43 | `replace(p, '')` only deletes characters, and it returns its input unchanged when `p` does not occur in it |
| Text.RemoveAllSkipsTo | monitor.py:43 | when no occurrence of `p` starts inside `u`, `replace(p, '')` on `u + p + v` keeps `u`, drops that `p` and continues on `v`: removal runs left to right without rescanning |
| Extract.MatchShape | main.py:105 | a match of the `books` pattern captures a `[ ... ]` that contains no `;` and is followed by the `;` |
| Extract.ExtractBooks | main.py:105-108 | when found, the captured group starts with `[`, ends with `]` and contains no `;` |
| Extract.ExtractBooksIsLeftmost | main.py:105-108 | the search fails exactly when the pattern matches at no position; otherwise it returns the group of the leftmost match |
| Extract.StripOfExtractedIsIdentity | main.py:110 | the `.strip()` applied to the captured group never changes it |
| Normalize.RemoveChar | main.py:112 | `replace(c, '')` leaves no `c`, keeps the other characters in order, and keeps the count of every other character |
| Normalize.MatchKey | main.py:113 | a key match spans a whole non-empty run of `[a-zA-Z0-9_]`, then whitespace, one `:` and all the whitespace after it, and nothing else; it never starts at a quote |
| Normalize.MatchKeyOfShape | main.py:113 | conversely, a word run followed by whitespace, `:` and all the following whitespace is exactly the match found |
| Normalize.MatchKeyFindsKey | main.py:113 | no key is missed: the pattern matches whenever the text starts with a word, whitespace and `:` |
| Normalize.QuoteKeys | main.py:113 | the substitution as written adds no characters other than quotes, colons and spaces |
| Normalize.QuoteKeysQuotesWord | main.py:113 | a word, whitespace, `:` and whitespace become `'word': `, and the substitution continues with the text after that whitespace |
| Normalize.QuoteKeysCorruptsQuotedUrl | main.py:113 | as written, the scheme inside a quoted URL value is rewritten as if it were a key |
| Normalize.QuoteKeysOutsideStrings | main.py:113 | the corrected pass adds no characters other than quotes, colons and spaces |
| Normalize.QuoteKeysAgreeWithoutQuotes | main.py:113 | on text without quote characters, the corrected pass equals the pass as written |
| Normalize.QuotedSegmentPreserved | main.py:113 | the corrected pass copies a string literal through verbatim |
| Normalize.QuoteKeysOutsideStringsKeepsQuotedUrl | main.py:113 | the corrected pass leaves a quoted URL value intact |
| Normalize.SingleToDoubleQuotes | main.py:114 | no `'` is left: every `'` becomes `"` in place, and length and all other characters are kept |
| Normalize.DropTrailingCommas | main.py:120 | the `,\s*]` substitution only deletes characters |
| Normalize.DropsCommaRun | main.py:120 | a comma, any whitespace and `]` become `]`, and the scan continues after the `]` |
| Normalize.DropCopiesNonComma | main.py:120 | any character other than a comma is copied and the scan continues after it |
| Normalize.DropCopiesLoneComma | main.py:120 | a comma not followed by whitespace and `]` is copied |
| Normalize.DropTrailingCommasDeletesOnlyCommasAndSpaces | main.py:120 | every character other than a comma or whitespace occurs as often after the pass as before |
| Normalize.CleanLiteral | main.py:110-120 | the cleanup chain as written, key quoting included: the text handed to the literal parser has no newline, tab or single quote |
| Normalize.CleanLiteralCorrected | main.py:110-120 | the same chain with the corrected key-quoting pass; its output also has no newline, tab or single quote |
| Normalize.CleanLiteralAgreesWithoutQuotes | main.py:110-120 | on a literal with no quote character, the chain as written and the corrected chain produce the same text |
| Week.DigitsAt | main.py:134 | the group of a match at `i` is the non-empty digit run between the `(` at `i` and the next `)` |
| Week.ParseWeek | main.py:132-135 | the week is always a non-empty digit string |
| Week.ParseWeekIsLeftmost | main.py:132-135 | `"0"` when no `(digits)` occurs; otherwise the digits of the leftmost occurrence |
| Week.ParseWeekOfPrefix | main.py:132-135 | a type text that begins with `(d)` has week `d` |
| Subjects.MapOf | main.py:32-77 | a dict display with repeated keys has exactly the listed keys |
| Subjects.MapOfLastWins | main.py:32-77 | the last entry for a key wins: an entry no later entry overrides gives its key's value |
| Subjects.MapOfValues | main.py:32-77 | a table built from entries whose ids are known ids maps every subject to a known id |
| Subjects.TableG1WellFormed | main.py:32-50 | every first-grade subject maps to a non-empty digit id other than `"0"` |
| Subjects.TableG2WellFormed | main.py:53-77 | every second-grade subject maps to a non-empty digit id other than `"0"` |
| Subjects.TypeId | main.py:168 | `get(subject, "0")`: the table's id for a listed subject, `"0"` otherwise; it never fails |
| Subjects.TypeIdIsUnknownIff | main.py:168-173 | for either table, the id is `"0"` exactly when the subject is not listed, and it is always a digit string |
| Classify.Get | main.py:143-146 | primitive: `get(key)` is present exactly when the key is in the record, and then it is the key's value |
| Classify.TypeText | main.py:149 | `str(raw_type)` is the type text, or `"None"` when the record has none |
| Classify.SubjectOf | main.py:145 | the subject is the stripped field, or empty when the record has none |
| Classify.ItemFor | main.py:157-175 | an item carries the trimmed subject, the link, the parsed week, the grade label and the table id |
| Classify.Select | main.py:142-175 | reference definition of one grade's list; its own contract only bounds the length, and `SelectIsIndexed` and `KeptIsReported` give its meaning |
| Classify.Keep | main.py:149-173 | a kept record carries the grade label; a record whose link is recorded or that has no type is never kept |
| Classify.Indices | main.py:142-175 | the kept positions are increasing, each is kept, and every kept position is listed |
| Classify.SelectIsIndexed | main.py:142-177 | each output list is the order-preserving subsequence of the kept records of its grade |
| Classify.SelectItemsSound | main.py:149-175 | every item has its list's grade label, a link not in the history, a digit week, and the table id of its subject or `"0"` |
| Classify.KeptIsReported | main.py:148-175 | every record that carries the marker, has an unseen link and has the grade label yields an item in that grade's list |
| Classify.GradesPartition | main.py:167-175 | a record with another grade label is in neither list, and together the lists are no longer than the input |
| Classify.ProcessItems | main.py:137-177 | the loop returns exactly the two reference lists |
| Dispatch.Chunks | main.py:218-219 | there are ⌈n/20⌉ chunks, each with 1 to 20 items, and all but the last have exactly 20 |
| Dispatch.FlattenChunks | main.py:219 | concatenating the chunks gives back the item list |
| Dispatch.GradeShort | main.py:228 | primitive: `1ث` for the first-grade label, `2ث` for any other |
| Dispatch.LinesOf | main.py:227-229 | one bullet line per item, in order |
| Dispatch.TelegramMessages | main.py:207-229 | there are no messages without a token or without items; otherwise one per chunk, each with the total count and 1 to 20 lines; a message has a part header `(k+1, N)` exactly when N > 1 |
| Dispatch.TelegramMessagesCarryChunks | main.py:213-229 | with a token and some items, line j of message k announces item `20k + j` of the first-grade items followed by the second-grade ones |
| Dispatch.AllLinesOfChunks | main.py:219-229 | reading the chunk messages in order gives the lines of all items |
| Dispatch.TelegramMessagesCoverItems | main.py:213-229 | every new item is announced exactly once, first-grade items before second-grade ones |
| Dispatch.Uploads | main.py:179-196 | there are no writes without items or without a database URL; otherwise one write per item, in order, keyed `type_week` and carrying the item's fields |
| Dispatch.FirebaseKeyInjective | main.py:188 | with digit ids and weeks, two items share a key exactly when they share both id and week |
| History.Translate | main.py:87 | text read in universal-newline mode contains no carriage return and is no longer than the file's text |
| History.TranslateCrLf | main.py:87 | a `\r\n` pair is read as a single `\n` |
| History.TranslateLoneReturn | main.py:87 | a `\r` not followed by `\n` is read as `\n` |
| History.TranslateWithoutReturn | main.py:87 | reading text with no carriage return changes nothing |
| History.TranslateAppend | main.py:87-88 | reading appended text is reading each part, when the first part does not end in a carriage return |
| History.Join | main.py:92-94 | the written lines end in a newline whenever there is at least one |
| History.FileLines | main.py:88 | no line read contains a newline |
| History.JoinFileLines | main.py:88-94 | writing the lines back one per line restores the text, plus a final newline when the last line had none |
| History.FileLinesAppend | main.py:88 | the lines of a newline-terminated text followed by more text are the lines of each |
| History.FileLinesOfJoin | main.py:88-94 | reading back the written lines gives the lines written, when no line contains a newline |
| History.Entries | main.py:88 | every entry is a non-blank line, stripped |
| History.EntriesAppend | main.py:88 | the entries of appended lines are the union of the entries |
| History.LoadAppendMode | main.py:83-88 | a missing file loads as the empty set; every entry is non-empty and stripped |
| History.SaveAppendMode | main.py:90-94 | the file afterwards exists and starts with the earlier text unchanged; when no link contains a newline, the appended part reads back line by line as the links |
| History.SaveAppendKeepsTerminated | main.py:90-94 | a file that ends in a newline still does after an append |
| History.LoadAfterAppend | main.py:83-94 | loading after an append gives the earlier entries united with the stripped non-blank links |
| History.AppendIsMonotone | main.py:83-94 | an append to a newline-terminated file never loses an entry, whatever the links contain |
| History.AppendToUnterminatedMergesLines | main.py:83-94 | without a final newline the hypothesis fails: appending `b` to a file holding `a` leaves the single entry `ab` |
| History.SplitLines | monitor.py:72 | non-empty text splits into at least one line, and no line contains a line boundary |
| History.SplitLinesOfJoin | monitor.py:72-78 | `splitlines` of newline-terminated lines that contain no line boundary gives those lines |
| History.LexTotal | monitor.py:77 | the code-point order of `sorted` relates any two strings |
| History.LexAntisymmetric | monitor.py:77 | two strings each at most the other are equal |
| History.LexTransitive | monitor.py:77 | the order is transitive |
| History.LeastExists | monitor.py:77 | every non-empty set of links has a least element |
| History.SortedList | monitor.py:77 | `sorted(list(links))` has every link exactly once, in strictly increasing order |
| History.LoadReplaceMode | monitor.py:67-72 | a missing file loads as the empty set |
| History.SaveReplaceMode | monitor.py:74-78 | the snapshot file exists; when no link contains a line boundary, its `splitlines` are the links in increasing order |
| History.LoadAfterReplace | monitor.py:67-78 | loading the snapshot of set S gives exactly S, so entries not in S are dropped |
| Monitor.PdfLinkSet | monitor.py:148-153 | an href is kept exactly when it starts with `http` and ends with `.pdf` |
| Monitor.PdfLinks | monitor.py:148-153 | the loop over the anchors keeps exactly those hrefs and equals the reference set |
| Monitor.CurrentLinks | monitor.py:148-160 | a browser session that raised yields no links; otherwise the PDF hrefs |
| Monitor.LastSegment | monitor.py:43 | `split('/')[-1]` is a suffix with no `/` that is preceded by a `/` or is the whole link |
| Monitor.LastSegmentOfPath | monitor.py:43 | the last segment of `dir/name` is `name` |
| Monitor.DisplayName | monitor.py:43 | a display name contains no `/` and is a subsequence of the last segment |
| Monitor.DisplayNameOfPdf | monitor.py:43 | `dir/stem.pdf` is announced as `stem` |
| Monitor.AlertEntries | monitor.py:41-44 | there is one `[name](link)` line per link, named by the link's display name |
| Monitor.AlertEntriesCount | monitor.py:40-44 | an alert has as many lines as there are links |
| Monitor.AlertFor | monitor.py:40-44 | the header count equals the number of links and the number of lines |
| Monitor.Sent | monitor.py:31-33 | a notice is delivered exactly when a token is configured |
| Monitor.NewLinks | monitor.py:180 | a link is new exactly when it is current and not in the snapshot |
| Monitor.MonitorRun | monitor.py:167-190 | with no current links the snapshot is kept and a failure status is sent; otherwise the snapshot is either kept or replaced by the current links, and it is replaced only when some link is new |
| Monitor.MonitorRunAlertsOnNewLinks | monitor.py:180-184 | a run alerts exactly when some link is new, and the alert counts and lists exactly the new links |
| Monitor.MonitorRunStoresCurrent | monitor.py:182-186 | a run with new links replaces the snapshot with the current links, and when each of them is one line the snapshot reads back as exactly those links |
| Monitor.MonitorRunQuiet | monitor.py:182-190 | a page with nothing beyond the snapshot leaves the file as it was and sends no alert |
| Monitor.MonitorRunSettles | monitor.py:171-186 | a second run on the same page leaves the snapshot alone and sends no alert |
| Pipeline.FetchMoeData | main.py:96-130 | a failed request, a missing assignment or a failed parse yields no records; any records returned are the parse of the cleaned leftmost group |
| Pipeline.FetchReturnsParse | main.py:105-121 | when the cleaned group parses, the fetch returns exactly the parsed records |
| Pipeline.FetchParsesCleanText | main.py:110-121 | the records come from text with no newline, tab or single quote |
| Pipeline.FetchReadsLeftmostAssignment | main.py:105-121 | no match anywhere gives no records; any records returned are the parse of the cleaned group of the leftmost match |
| Pipeline.FetchReturnsLeftmostParse | main.py:105-121 | conversely, when the cleaned group of the leftmost match parses, its records are what the fetch returns |
| Pipeline.FetchAgreesWithCorrectedOnQuoteFreeGroup | main.py:105-121 | on a page whose `books` group holds no quote character, the fetch returns what the corrected cleanup would give |
| Pipeline.LinkText | main.py:94 | primitive: a missing link is written as `None` |
| Pipeline.SavedLinks | main.py:276 | primitive: one saved line per reported item, in order |
| Pipeline.RunMain | main.py:245-277 | no data or no new items leaves history, uploads and messages untouched; otherwise the reported links are appended whatever was delivered. Reported links were not in the history. There is one upload per item when a database URL is set, and the messages announce exactly the reported items when a token is set |
| Pipeline.RunMainReportsNewItems | main.py:247-256 | the reported items are the two lists `process_items` returns on the loaded history |
| Pipeline.RunMainKeepsHistory | main.py:274-277 | a run on a newline-terminated history file never forgets an entry, and it leaves the file newline-terminated |
| Pipeline.RunMainHistoryIgnoresDelivery | main.py:265-277 | the saved history does not depend on whether Telegram or Firebase is configured |
| Pipeline.AppendedLinksRecorded | main.py:276-277 | appending clean links to a newline-terminated history file adds exactly their entries |
| Pipeline.RunMainRecordsLinks | main.py:274-277 | after a run on a newline-terminated history file, the history holds the earlier entries plus every clean reported link |
| Pipeline.ReportedLinksRecorded | main.py:276-277 | when the history file is newline-terminated and the records' links are clean, every reported link is in the history the run leaves |
| Pipeline.KeptIsRecorded | main.py:256-277 | when the history file is newline-terminated and the records' links are clean, a record kept on a run has its link in the history that run leaves |
| Pipeline.SelectAfterRecording | main.py:153-154 | once the history holds every kept link, only link-less records are kept again |
| Pipeline.SettledGrade | main.py:153-175 | after one run on a newline-terminated history file with clean record links, each grade's list on the same data holds only link-less items |
| Pipeline.RunOnSettledHistory | main.py:256-261 | a run on such a history reports only link-less items, and nothing when every record has a link |
| Pipeline.RunMainSettles | main.py:245-277 | on a newline-terminated history file with clean record links, a second run on the same response reports only link-less records, and changes and sends nothing when every record has a link |
| Pipeline.ReportedLinkIsRecordLink | main.py:143-175 | every reported link is the link of some input record |
| Pipeline.SelectedLinkIsRecordLink | main.py:143-175 | every link in one grade's list is the link of some input record |
| Pipeline.LinklessRecordRepeats | main.py:143-154 | a link-less assessment of either grade is reported on every run, whatever the history holds |

## Left out

- Network transport is not modelled: HTTP requests, timeouts, headers and status handling, and the Telegram and Firebase calls. A failed fetch is a None response. Upload and message delivery results are not modelled because the code ignores them: history is appended after dispatch regardless.
- Browser automation is not modelled: Selenium, ChromeDriver, the clicks, `time.sleep` and BeautifulSoup parsing. Only the filter applied to the found hrefs is modelled.
- Environment variables are not read. They are booleans: a bot token is present or not, and a database URL is present or not.
- `print` logging is not modelled.
- Message text is left out: HTML and Markdown markup, emoji and chat ids. Messages are modelled by their total count, part header and bullet-line fields.
- `ast.literal_eval` is a parameter and its grammar is not modelled. Its result is restricted to lists of dictionaries whose fields are strings. Results of other shapes are left out, and so are records with non-string fields. These records are not all errors in the source. A non-string `type` goes through `str()` (main.py:149). A non-string `grade` fails both comparisons (main.py:167, 172). A hashable non-string `link` fails the history test (main.py:153). Only a non-string `subject` (main.py:145) or an unhashable `link` makes `process_items` raise.
- Python set iteration order is not modelled. The alert lines of monitor.py are a set, and main.py's history entries are a set.
- The filesystem is reduced to a file that is missing or present. Encoding errors, partial writes and concurrent runs are not modelled. Writes are taken to produce `\n` line endings.
- History.SortedList: `sorted` over a set is a ghost function that picks the least element first. A set has no compiled iteration order, so `SaveReplaceMode` and `MonitorRun` are ghost too.
- Text.IsDigit: `\d` is modelled as ASCII, Arabic-Indic and Extended Arabic-Indic digits only, not every Unicode decimal digit. Week.ParseWeek's digit claim is therefore about these three blocks.
- Text.IsSpace: the `isspace` set is written out for the code points that have it. Characters outside it are treated as non-space.
- History.AppendIsMonotone: requires the existing file to end in a newline. `History.AppendToUnterminatedMergesLines` shows an entry lost otherwise.
- Pipeline.RunMainKeepsHistory: requires the history file to end in a newline, for the same reason.
- History.LoadAfterAppend: requires the existing file to end in a newline. Otherwise the first appended link merges with the file's last line. A file written only by `save_history` always ends in a newline. It also requires links free of `\n` and `\r`: such a link reads back as several lines.
- History.LoadAfterReplace: requires links free of `splitlines` boundaries. A link containing one reads back as several entries.
- Monitor.MonitorRunSettles: requires the current links to be free of line boundaries, for the same reason.
- Pipeline.RunMainSettles: requires a newline-terminated history file and record links that are non-blank, already stripped and free of `\n` and `\r`. Otherwise the first saved link merges with the file's last line, and other links are stored altered; either way they are reported again.
- Pipeline.SettledGrade: requires a newline-terminated history file and clean record links, for the same reasons.
- Pipeline.KeptIsRecorded: requires a newline-terminated history file and clean record links. A kept link ` b` is saved as ` b` and loads back as `b`.
- Pipeline.ReportedLinksRecorded: requires a newline-terminated history file and clean record links, for the same reasons.
- Pipeline.RunMainRecordsLinks: requires a newline-terminated history file. `History.AppendToUnterminatedMergesLines` shows a link merging with the last line otherwise.
- Pipeline.AppendedLinksRecorded: requires a newline-terminated history file, for the same reason.
- History.FileLinesOfJoin: requires lines free of `\n`. A line containing one reads back as two.
- Monitor.MonitorRunStoresCurrent: the read-back holds only when every current link is one line, for the same reason as `History.LoadAfterReplace`.
- Monitor.DisplayNameOfPdf: requires the stem not to run into an earlier `.pdf`, because `replace` removes every occurrence.

## Findings

| source | as written | input that shows it | evidently intended | confidence | as-written member | corrected member |
|---|---|---|---|---|---|---|
| main.py:113 | the key-quoting substitution also matches inside string values, so the scheme of a quoted URL is rewritten as a key | `{link: 'http://x/a.pdf'}` becomes `{'link': ''http': //x/a.pdf'}`, which no longer holds the URL as one string | quote bare keys only, copying string literals through untouched | medium, not executed | Normalize.QuoteKeysCorruptsQuotedUrl | Normalize.QuoteKeysOutsideStringsKeepsQuotedUrl |

`Normalize.QuoteKeys` models the substitution as written, and `Normalize.CleanLiteral` and the fetch step `Pipeline.FetchMoeData` use it, so the model of `main` is the program as written. `Normalize.QuoteKeysOutsideStrings` is the corrected pass, and `Normalize.CleanLiteralCorrected` is the cleanup chain built on it. `Normalize.QuoteKeysAgreeWithoutQuotes` and `Normalize.CleanLiteralAgreesWithoutQuotes` show that the two differ only on text that contains quotes. `Pipeline.FetchAgreesWithCorrectedOnQuoteFreeGroup` carries this up to the fetch step.
