# C-CURE event-log record reconstruction, modelled in Dafny

The application reads an access-control event report exported from a spreadsheet.
In that report one event's "Message Text" is often split over several rows. The
reconstruction engine puts the events back together:

1. It walks the data rows once. A row whose trimmed message cell is blank is skipped.
2. Every other row's cells are joined with a space and searched for a
   date/time stamp, the pattern
   `\b\d{1,2}[\/\-]\d{1,2}[\/\-]\d{2,4}\s+\d{1,2}:\d{2}:\d{2}\b`. A stamp overwrites the running `lastDate`.
3. The message is appended to a fragment buffer. When a message ends with `.`,
   the buffer is joined with spaces and whitespace-normalised. The result is emitted
   as one block, together with the current `lastDate`.
4. A trailing unterminated buffer is emitted at the end.
5. Each block's text then goes through a field extractor. The extractor fills
   `Numero` (the card number), `Name`, `Door Name` and `Message Type` from four
   patterns, with `""` as each field's fallback.

The upload handler in `src/App.jsx` works as follows:

- It picks the message column from the header row.
- It collects the first stamp of each cell, row by row, header row included. A cell with two
  stamps adds only its first. A stamp whose date and time sit in two cells adds nothing,
  although the joined-row search of `src/index.js` finds it.
- It runs its own copy of the segmenter. That copy collects short-date candidates
  from a date column instead of carrying `lastDate`. The handler passes no date
  column, so the copy pads with `""`.
- It then overwrites each record's `Date/Time` with the stamp at the same index.
- The export name replaces a final `.xls`/`.xlsx` with `_fixed.xlsx`.

Modules, one file each:

- `wrappers.dfy` — `Wrappers`: the `Option` type searches return.
- `chars.dfy` — `Chars`: the JavaScript character classes the patterns use:
  - the `\s`/`trim()` whitespace set;
  - line terminators, which `.` refuses;
  - `\d`;
  - the `\b` word characters;
  - ASCII case folding for the `i` flag.
- `text.dfy` — `Text`:
  - the string operations `trim`, `join(" ")` and `endsWith(".")`;
  - the normalisation `replace(/\s+/g, " ").trim()`;
  - properties of the normalisation: it is normal and idempotent, and keeps the visible characters.
- `patterns.dfy` — `Patterns`: one hand-written matcher per regular expression, with a
  generic leftmost search standing in for `String.prototype.match`.
  - Each matcher comes with a declarative description of the pattern's language.
  - Lemmas prove each matcher sound and complete with respect to that description.
- `extractor.dfy` — `Extractor`: `parseMessageTextWithDate` and the per-field rules.
- `segmenter.dfy` — `Segmenter`: `buildRecordsFromMessageText` of `src/index.js`.
  - It is an imperative method with a loop invariant, proved equal to a fold (`Scan`/`Segment`).
  - Lemmas state the block structure against an independent description: the messages
    cut after every period (`Groups`), and the latest stamp (`LatestDate`).
- `app.dfy` — `App`: the `src/App.jsx` glue:
  - `findIndex` column resolution;
  - the nested `allDates` loops;
  - the variant segmenter with its padding loop;
  - the overlay;
  - the empty-sheet guard;
  - the export name.

Modelling choices:

- A row is a `seq<string>` and a cell past the end of a row reads as `""`, which is
  what `rows[i]?.[msgIdx] || ""` gives for the
  string cells `sheet_to_json(…, {raw: false, defval: ""})` produces.
- Whitespace is the concrete JavaScript WhiteSpace + LineTerminator set. One set is
  used for `trim()`, `\s` and `\s+`.
- The date pattern's two separators are independent `[\/\-]` classes, so `1/2-2024` is
  accepted, as the code has it. Both ends need a `\b` word boundary.
- The date pattern is written as a list of tokens: `Digits(lo, hi)` for `\d{lo,hi}`,
  `DateSep` for `[\/\-]`, `Colon` for `:` and `Gap` for `\s+`. One greedy matcher walks
  the list. It is proved against a description that allows every repetition count,
  so regular-expression backtracking is covered too.
- The undefined date index the handler gives the variant segmenter is `Option.None`.
  The JavaScript `undefined` that `allDates[i]` yields past the end is `None` in
  `PreviewRow.dateTime`.
- `date || ""` on a string is the string itself, so `Date/Time` is the date passed.
- The comment above the padding loop in `src/App.jsx` promises truncation when there
  are more dates than texts. The code does not truncate the array; the extra dates are
  simply never read by the `map`. The model follows the code.

## Model

| member | source | states |
|---|---|---|
| Segmenter.BuildRecords | src/index.js:1-37 | The loop returns exactly the records of the fold `RecordsOf`. Their number is the count of non-blank trimmed messages ending with `.`, plus one when the last such message does not end with `.` |
| Segmenter.Scan | src/index.js:10-27 | After any prefix of the rows, `texts` and `dates` have equal length |
| Segmenter.Flush | src/index.js:29-33 | Flushing the trailing buffer keeps `texts` and `dates` index-aligned |
| Segmenter.Segment | src/index.js:1-33 | The emitted texts and dates have equal length |
| Segmenter.RecordsOf | src/index.js:36 | There is one record per emitted text |
| Segmenter.RecordsSpec | src/index.js:36 | Record `k` has block `k`'s text as Message Text and block `k`'s date as Date/Time. Its Name is the text between the first two quotes, since no emitted text contains a line break |
| Segmenter.RowDate | src/index.js:15-17 | A row's stamp, when it has one, is a non-empty string, so it always overwrites `lastDate` |
| Segmenter.Messages | src/index.js:11-12 | The messages the loop keeps are exactly the non-blank trimmed message cells; none is empty |
| Segmenter.GroupsUnique | src/index.js:19-25 | The cut is unique: any list of blocks that concatenates to the messages and is cut only after periods is exactly `Groups` of the messages |
| Segmenter.BlockCount | src/index.js:22-33 | #blocks = #dates = #records = #messages ending with `.` + (1 if the last message is unterminated) |
| Segmenter.StepTexts | src/index.js:11-26 | One row adds a text exactly when its trimmed message is non-blank and ends with `.` |
| Segmenter.AbsorbAfterClosed | src/index.js:19-26 | After a closed block (or at the start), taking a message (`Absorb`) keeps the loop state in step with the cut: closed texts are the closed groups' block texts, the buffer is the open group |
| Segmenter.AbsorbIntoOpen | src/index.js:19-26 | With a block open, taking a message keeps the loop state in step with the cut: the message joins the open group, which it may close |
| Segmenter.ScanCount | src/index.js:22-26 | Within the loop, the closed blocks number exactly the messages so far ending with `.` |
| Segmenter.GroupsPartition | src/index.js:19-25 | Concatenating every block's fragment list gives back the message sequence in row order. Every block is non-empty, only its last fragment may end with `.`, and every block but the last does |
| Segmenter.ScanGroups | src/index.js:10-27 | The loop's closed texts are the block texts of all closed groups of the messages so far. Its buffer is the open group |
| Segmenter.SegmentTexts | src/index.js:19-33 | The emitted texts are the block texts of the groups of the message sequence, in close order |
| Segmenter.SegmentTextsNormal | src/index.js:23 | Every emitted text is normal: no whitespace at either end, single plain spaces only. Normalising it again is a no-op |
| Segmenter.LatestDateSpec | src/index.js:15-17 | The latest stamp is `""` exactly when no non-blank row has a stamp. Otherwise it is the stamp of a non-blank row after which no non-blank row has one |
| Segmenter.LastSomeSpec | src/index.js:17 | Last-present search: finds nothing iff nothing is present; otherwise finds a present entry with nothing present after it |
| Segmenter.ScanLastDate | src/index.js:15-25 | `lastDate` after any prefix is the latest stamp of that prefix. Closing a block never resets it |
| Segmenter.ClosingRowDate | src/index.js:22-25 | The block closed by row `k` carries the latest stamp of rows `0..k`, the closing row included |
| Segmenter.TrailingBlockDate | src/index.js:30-33 | The trailing unterminated block carries the latest stamp of all rows |
| Segmenter.StepExtends | src/index.js:22-25 | A row only ever appends to `texts` and `dates` |
| Segmenter.ScanMonotone | src/index.js:10-27 | The blocks emitted after a prefix of the rows are a prefix of those emitted after all of them |
| Segmenter.ScanPrefix | src/index.js:22-33 | Records come out in block-close order: the blocks closed by any prefix of the rows are a prefix of the final output |
| Segmenter.BlankRowIgnored | src/index.js:11-12 | Inserting a row whose message trims to empty changes nothing in the loop state: texts, dates, buffer or `lastDate` |
| Segmenter.BlankRowRecords | src/index.js:11-12 | Inserting a blank-message row leaves the records unchanged, its stamp included |
| Extractor.ParseWithDate | src/index.js:39-53 | Total. Message Text is the text verbatim and Date/Time the date. Numero is all digits, Name and Door Name contain no `'`, and Message Type is a prefix of the text |
| Extractor.Numero | src/index.js:40 | The card number is all digits |
| Extractor.Name | src/index.js:41 | The name never contains `'` |
| Extractor.DoorName | src/index.js:42 | The door never contains `'` |
| Extractor.MessageType | src/index.js:43 | The type is a prefix of the text, as spelled there |
| Extractor.NumeroSpec | src/index.js:40 | Numero is `""` iff nothing matches `\(Card:\s*(\d+)\)` (case-insensitive). Otherwise it is the digits of the leftmost match |
| Extractor.NameSpec | src/index.js:41 | Name is `""` when `'(.*?)'` matches nowhere. When it matches, Name is the capture of the leftmost match, with `.` refusing line terminators |
| Extractor.NameWithoutLineBreaks | src/index.js:41 | For a text without line breaks, Name is the span between the first two `'` (`""` if fewer than two) |
| Extractor.DoorNameSpec | src/index.js:42 | Door Name is `""` when `en\s+'(.*?)'` (case-insensitive) matches nowhere. When it matches, Door Name is the capture of the leftmost match |
| Extractor.MessageTypeSpec | src/index.js:43 | Message Type is non-empty iff the text starts, case-insensitively, with Admitido, Denegado or Rechazado. It then equals that prefix as spelled in the text; there is no word boundary |
| Extractor.LowerAll | src/index.js:43 | ASCII lower-casing, character by character |
| Patterns.Leftmost | src/index.js:16 | A found position lies within the text and the matcher succeeds there with the returned value |
| Patterns.LeftmostSpec | src/index.js:16 | `match` semantics: the matcher fails at every position before the found one; none only when it fails at every position |
| Patterns.LeftmostAt | src/index.js:16 | The first succeeding position is the one found, with its value |
| Patterns.DateAtSpec | src/index.js:7-8 | The date matcher ends at `f` iff `s[i..f]` is in the language of the date pattern, word boundaries included (mixed separators allowed) |
| Patterns.TokensEndSound | src/index.js:8 | Where the greedy token matcher stops, the text from the start splits into one piece per token of the pattern |
| Patterns.TokensEndComplete | src/index.js:8 | For a pattern whose digit runs cannot overrun, every split ending before a non-digit is the one the greedy matcher finds |
| Patterns.StampTokensGreedy | src/index.js:8 | In the stamp pattern every digit run needs at least one digit and is followed by a non-digit token or the end, and the whitespace run by a non-whitespace token, so taking each run whole loses no match |
| Patterns.DateSearchSpec | src/index.js:16-17 | The date search returns the leftmost match of the date pattern, and none iff there is no match anywhere |
| Patterns.FirstDate | src/index.js:17 | A found stamp is non-empty |
| Patterns.CardAtSpec | src/index.js:40 | The card matcher at `p` succeeds iff the card pattern matches there, and returns its digits |
| Patterns.CardAtComplete | src/index.js:40 | Any match of `\(Card:\s*(\d+)\)` at `p` is the one the matcher returns, digits included |
| Patterns.CardAtDigits | src/index.js:40 | The captured card number is all digits |
| Patterns.QuotedAtSpec | src/index.js:41 | The quote matcher at `p` returns the shortest quoted span without a line break |
| Patterns.QuotedAtSound | src/index.js:41 | A quote match at `p` is a lazy quoted span, and its capture is the text between the quotes |
| Patterns.QuotedAtComplete | src/index.js:41 | Any lazy quoted span at `p` is the one the matcher returns |
| Patterns.DoorAtSpec | src/index.js:42 | The door matcher at `p` returns the lazily quoted span after `en` and whitespace |
| Patterns.DoorAtSound | src/index.js:42 | A door match at `p` is `en`, maximal whitespace and a lazy quoted span, and its capture is the quoted text |
| Patterns.DoorAtComplete | src/index.js:42 | Any match of `en\s+'(.*?)'` at `p` is the one the matcher returns |
| Patterns.MessageTextAtSpec | src/App.jsx:43 | The header test at `p` holds iff `message`, then whitespace, then `text` appear there, case-insensitively |
| Patterns.MessageTextAtComplete | src/App.jsx:43 | `message`, any whitespace and `text` at `p` make the header test succeed there |
| Patterns.MessageTextHasText | src/App.jsx:60 | A header matching `message\s*text` also matches `text` |
| Patterns.ShortDateAtSpec | src/App.jsx:87 | The short date test holds at `p` iff some stretch from `p` is in the language of `\d{1,2}[\/\-]\d{1,2}[\/\-]\d{2,4}`; `.test` needs only the year's first two digits |
| Patterns.StampHasShortDate | src/App.jsx:87 | Every full date/time stamp of src/index.js:8 passes the short date test, at its start |
| Patterns.TokensSpanSplit | src/index.js:8 | A stretch matched by two patterns in sequence splits where the first one's match ends |
| Patterns.XlsAt | src/App.jsx:129 | The extension pattern can only match up to the end of the name |
| Patterns.DigitRun | src/index.js:8 | A greedy digit run stays within the text and stops only at the end or at a non-digit |
| Patterns.DigitRunSpec | src/index.js:8 | Every character of the greedy digit run is a digit |
| Patterns.DigitRunMaximal | src/index.js:8 | The greedy digit run is the unique maximal one |
| Patterns.SpaceRun | src/index.js:8 | A greedy whitespace run stays within the text and stops only at the end or at a non-whitespace character |
| Patterns.SpaceRunSpec | src/index.js:8 | Every character of the greedy whitespace run is whitespace |
| Patterns.SpaceRunMaximal | src/index.js:8 | The greedy whitespace run is the unique maximal one |
| Text.TrimSpec | src/index.js:11 | `trim()` removes exactly a whitespace-only margin at either end and keeps the rest verbatim |
| Text.TrimStartSpec | src/index.js:11 | Trimming the start removes exactly a whitespace-only prefix and leaves a result not starting with whitespace |
| Text.TrimEndSpec | src/index.js:11 | Trimming the end removes exactly a whitespace-only suffix and leaves a result not ending with whitespace |
| Text.VisibleTrim | src/index.js:11 | `trim()` drops no visible character |
| Text.TrimEmpty | src/index.js:12 | A cell trims to empty iff it is all whitespace |
| Text.NormalizeIsNormal | src/index.js:23 | The normalisation leaves no whitespace at either end, no two whitespace characters together, and only plain spaces |
| Text.NormalizeFixesNormal | src/index.js:23 | A normal text is left unchanged |
| Text.NormalizeIdempotent | src/index.js:23 | Normalising twice is normalising once |
| Text.CollapseRun | src/index.js:23 | `replace(/\s+/g, " ")` turns a whitespace run between two visible characters into exactly one space, so words stay separated |
| Text.CollapseAppend | src/index.js:23 | The collapse splits after a visible character: no whitespace run straddles the cut |
| Text.NormalizeWords | src/index.js:23 | Two normal texts with any whitespace run between them normalise to the two joined by exactly one space |
| Text.NormalizeKeepsVisible | src/index.js:23 | The normalisation keeps every non-whitespace character, in order |
| App.FindIndex | src/App.jsx:42-44 | `findIndex`: the first position satisfying the test, or -1 when none does |
| App.MessageColumn | src/App.jsx:41-62 | The chosen column is the first header matching `message\s*text`; failing that, the first containing `text`; failing that, 0 |
| App.MessageColumnFallback | src/App.jsx:59-62 | Column 0 is chosen when no header contains `text`. Otherwise the chosen header contains `text` |
| App.CollectDates | src/App.jsx:49-55 | The nested loops collect exactly `AllDates` of all rows, header included |
| App.CollectRowDates | src/App.jsx:51-54 | The inner loop appends exactly the first stamps of the row's cells, in cell order |
| App.CellMatch | src/App.jsx:52-53 | A cell contributes at most one entry, its first stamp |
| App.AllDatesAppend | src/App.jsx:50-55 | Row-major order: the stamps of stacked rows are concatenated, and so are those of split cells |
| App.AllDatesSingle | src/App.jsx:50-53 | One row gives its cells' stamps; one cell gives its first stamp or nothing |
| App.AllDatesBound | src/App.jsx:50-55 | At most one stamp per cell |
| App.ConcatBound | src/App.jsx:51-53 | Pieces of length at most one give at most one entry per element |
| App.AllDatesFromCells | src/App.jsx:50-55 | Every collected stamp is the first stamp of some cell of the sheet |
| App.ParseMessageText | src/App.jsx:106-120 | The component's copy of the field rules builds exactly the src/index.js record for the same text and date: the same four rules with `""` fallbacks (App.jsx:107-110 against index.js:40-43), Message Text the text, and Date/Time the date, since the src/index.js fallback of Date/Time to `""` changes no string |
| App.VariantRecordDates | src/App.jsx:100-103 | After the padding every record has a string date: record `k` carries the `k`-th collected candidate, or `""` when fewer were collected. Its Message Text is block `k`'s text |
| App.Pad | src/App.jsx:101 | Padding keeps the collected dates and fills with `""` up to the number of texts |
| App.VariantRecordsOf | src/App.jsx:103 | One record per text |
| App.VariantBuildRecords | src/App.jsx:77-104 | The loop and the padding loop return exactly the records of `VariantRecordsOf` |
| App.VariantAgrees | src/App.jsx:82-98 | The variant's texts and buffer follow the src/index.js loop row by row |
| App.VariantTextsAgree | src/App.jsx:91-98 | The variant's block texts are those of src/index.js for the same rows and column |
| App.VariantUndated | src/App.jsx:84-90 | Without a date column no date is ever collected |
| App.VariantMatchesEngine | src/App.jsx:65 | As called, the variant returns the src/index.js records with every Date/Time `""` |
| App.VariantDates | src/App.jsx:84-90 | With a date column, `DateCandidate` and `VariantStep` collect at most one candidate per row. Each candidate is non-empty, contains a short date, and is the trimmed date-column cell of some row |
| App.VariantStepAgrees | src/App.jsx:83-96 | One row moves the variant's texts and buffer exactly as one step of the src/index.js loop moves its own, whatever the date column |
| App.StampCellCollected | src/App.jsx:84-90 | A date-column cell holding a full stamp is always collected, trimmed, as a candidate |
| App.OnLoad | src/App.jsx:38-72 | An empty sheet returns before any processing and leaves the preview alone. Otherwise the preview is `PreviewOf(rows)` |
| App.Overlay | src/App.jsx:67-70 | One preview row per processed record |
| App.OverlayDropsRecordDates | src/App.jsx:67-70 | The overlay discards the records' own Date/Time: records differing only there give the same preview |
| App.OverlayIgnoresExtraStamps | src/App.jsx:69 | Stamps beyond the number of records never reach the preview |
| App.PreviewOf | src/App.jsx:41-70 | One preview row per block src/index.js finds in the data rows, the header row left out |
| App.PreviewSpec | src/App.jsx:64-70 | One preview row per block of the data rows. Row `i` has Date/Time equal to `allDates[i]`, or undefined when there are fewer stamps; every other field is the src/index.js record's |
| App.ExportName | src/App.jsx:127-130 | The export name is the file name unchanged or a name ending with `_fixed.xlsx`; an empty name gives `reporte_fixed.xlsx` |
| App.ExportRenames | src/App.jsx:129 | A name ending with `.xls`/`.xlsx` in any case has the extension replaced by `_fixed.xlsx` |
| App.ExportKeeps | src/App.jsx:128-129 | A non-empty name without the extension is kept |
| App.ExportReplaces | src/App.jsx:129 | A name with the extension changes and ends with `_fixed.xlsx` |
| App.ExportChanges | src/App.jsx:127-130 | The name changes iff it is empty or ends with the extension; the new name ends with `_fixed.xlsx` |

## Left out

- React state, refs, rendering, `reset` and the 100-row preview cap: user interface, not logic.
- `FileReader`, `XLSX.read`, `sheet_to_json`, `json_to_sheet`, `book_append_sheet` and
  `writeFile`:
  - these are library I/O;
  - the model starts from the parsed rows and ends at the preview and the file name;
  - so the export/import round trip is not stated.
- `console.log` of `allDates`: output only.
- JavaScript coercion of non-string cells (`String(x || "")` on numbers, booleans,
  `null`): cells are modelled as strings. `0`, for example, would read as `""`.
- A negative or non-integer column index: `messageTextIdx` is always a natural number
  here. `MessageColumn` never yields -1.
- Unicode case folding: the `i` flag is modelled on ASCII letters. Every letter in
  the patterns is ASCII, and without the `u` flag, `i` folds no other character onto them.
- A general regular-expression engine: each pattern has its own matcher, proved against a
  description of that pattern's language.
