# Blood-report extractor: a verified model

The blood-report page (`pages/index.js`) takes OCR text of a lab report. It pulls four values out of it: Hemoglobin, RBC, WBC and PlateletCount. It offers them as a CSV text, and it keeps a history of uploaded reports in the browser's storage slot `"pastReports"`. This project models three parts of that page in Dafny and proves what they do:

- **The extractor** (`extractor.dfy`, with `chars.dfy`). This is `extractKeyValues`, four case-insensitive `String.prototype.match` calls, each followed by `?.[1] || "N/A"`. Each regex is an explicit leftmost scan: a label at position `i`, then a greedy `[:\s]*` run, then a greedy non-empty run of the capture class. The capture class is `[\d.]` for Hemoglobin, RBC and WBC, and `[\d,]` for PlateletCount. The PlateletCount label is `Platelet\s*Count`.
  - `RegexMatch` is a separate, declarative reading of the same pattern, with existential witnesses for the spans. The lemmas show that the greedy scan finds exactly the declarative matches.
  - They also show that a field is `"N/A"` exactly when its pattern matches nowhere. Otherwise it is group 1 of the match at the least position.
  - `\s` is ECMAScript's exact set of white-space and line-terminator characters.
  - `/i` uses ASCII case folding. That is exact here: without the `u` flag, no non-ASCII character folds to an ASCII letter.
  - The value classes `[\d.]` and `[\d,]` accept texts such as `1.2.3` and `.`, not just numbers, and the PlateletCount label accepts `PlateletCount` with no space.
- **The CSV text** (`csv.dfy`). This is `downloadCSV`'s `csvContent`. `Split` is the partner that reads the text back. The lemmas prove the header plus one `key,value` line per field, in field order, with no final line feed. Because nothing is quoted, every comma of a PlateletCount value adds a cell.
- **The history** (`history.dfy`). A `Storage` object holds the slot, and a `Page` object holds the React state `pastReports`. The mount effect, `handleUpload` and `clearPastReports` are the methods `Load`, `Upload` and `Clear`.
  - The invariant `Synced` says one of two things holds: the slot holds exactly the history, or the slot is absent and the history is empty.
  - Client methods check the round trips: load after upload, and upload after clear.

`samples.dfy` checks the model on concrete texts. These are the full report, a text without labels, and edge cases: a label occurrence without a value, `1.2.3`, a lone `.`, and `PLATELETCOUNT` written as one word.

## Model

| member | source | states |
|---|---|---|
| Chars.IsSpace | pages/index.js:31-34 | ECMAScript `\s`, written out as the exact set of WhiteSpace and LineTerminator code points; a definition with no contract, on which FoldPreservesClass and the disjointness in WellFormed depend |
| Chars.IsDigit | pages/index.js:31-34 | ECMAScript `\d`, the ten ASCII digits; a definition with no contract, on which FoldPreservesClass and the disjointness in WellFormed depend |
| Chars.In | pages/index.js:31-34 | membership in the four classes `\s`, `[:\s]`, `[\d.]` and `[\d,]`; a definition with no contract, on which FoldPreservesClass and the disjointness in WellFormed depend |
| Chars.Lower | pages/index.js:31-34 | ASCII `/i` folding: the result is never upper-case; letters stay letters; anything that is not an upper-case letter is unchanged; an upper-case letter moves down by 32 |
| Chars.FoldPreservesClass | pages/index.js:31-34 | two characters equal up to case are both in or both out of `[:\s]`, `[\d.]` and `[\d,]`, and when in they are the same character |
| Extractor.HemoglobinRule | pages/index.js:31 | `/Hemoglobin[:\s]*([\d.]+)/i`: the label `hemoglobin`, capture class `[\d.]`; pinned by RulesWellFormed and the sample lemmas |
| Extractor.RbcRule | pages/index.js:32 | `/RBC[:\s]*([\d.]+)/i`: the label `rbc`, capture class `[\d.]`; pinned by RulesWellFormed and the sample lemmas |
| Extractor.WbcRule | pages/index.js:33 | `/WBC[:\s]*([\d.]+)/i`: the label `wbc`, capture class `[\d.]`; pinned by RulesWellFormed and the sample lemmas |
| Extractor.PlateletCountRule | pages/index.js:34 | `/Platelet\s*Count[:\s]*([\d,]+)/i`: the words `platelet` and `count`, capture class `[\d,]`; pinned by RulesWellFormed and the sample lemmas |
| Extractor.RulesWellFormed | pages/index.js:31-34 | the four patterns have non-empty lower-case label words and a capture class disjoint from `[:\s]` |
| Extractor.RunEnd | pages/index.js:31-34 | a greedy run: every character of `s[i..j]` is in the class and `s[j]` is not, or the text ends |
| Extractor.WordAt | pages/index.js:31-34 | the `/i` label comparison: the text at `i` spells the word after ASCII folding; a definition, exercised by WordAtIgnoresCase and the sample lemmas |
| Extractor.WordsEnd | pages/index.js:34 | where the label `Platelet\s*Count` (or a one-word label) ends, at least one word past `i` and inside the text |
| Extractor.MatchAt | pages/index.js:31-34 | the capture of a match at one position is non-empty and made only of the capture class |
| Extractor.FirstMatch | pages/index.js:31-34 | the leftmost search's capture is non-empty and made only of the capture class |
| Extractor.FieldValue | pages/index.js:31-34 | group 1 of the match, or "N/A" when there is none, is "N/A" or a non-empty run of the capture class |
| Extractor.Entries | pages/index.js:65 | `Object.entries` of the result has four pairs, keyed Hemoglobin, RBC, WBC and PlateletCount in that order, each paired with that field's value |
| Extractor.ExtractKeyValues | pages/index.js:29-36 | all four values are non-empty; Hemoglobin, RBC and WBC are "N/A" or digits and `.`; PlateletCount is "N/A" or digits and `,` |
| Extractor.WordsSpan | pages/index.js:34 | the declarative reading of the label `w0\s*w1`: some white-space run joins the words; a definition, tied to the scan by WordsEndSound and WordsEndComplete |
| Extractor.RegexMatch | pages/index.js:31-34 | the declarative reading of a whole pattern: label span, `[:\s]*`, then a non-empty capture that `+` cannot extend; a definition, tied to the scan by MatchAtIsRegexMatch |
| Extractor.RunEndIsMaximalRun | pages/index.js:31-34 | any run of a class that cannot be extended is the one the greedy scan finds |
| Extractor.WordsEndSound | pages/index.js:34 | a label the scan finds is a declarative `w0\s*w1` span |
| Extractor.WordsEndComplete | pages/index.js:34 | every declarative label span is found by the greedy scan, with the same end: greedy `\s*` loses nothing |
| Extractor.MatchAtIsRegexMatch | pages/index.js:31-34 | the scan at `i` captures something if and only if the pattern matches at `i`, and then it captures group 1 of that match |
| Extractor.ScanWitness | pages/index.js:31-34 | a capture of the scan at `i` is group 1 of a declarative match at `i` |
| Extractor.RegexMatchIsScanned | pages/index.js:31-34 | a declarative match at `i` with group `s[j..k]` is what the scan captures at `i` |
| Extractor.FirstMatchIsLeftmost | pages/index.js:31-34 | the search finds nothing if and only if no position matches; otherwise it returns the capture of a position with no match before it |
| Extractor.LeftmostPosition | pages/index.js:31-34 | a successful search stops at a position that matches, with no matching position before it |
| Extractor.NoMatchPastEnd | pages/index.js:31-34 | no pattern matches at the very end of the text |
| Extractor.ScanFound | pages/index.js:31-34 | when the search succeeds, the field holds group 1 of a match with no declarative match at an earlier position |
| Extractor.ScanNotFound | pages/index.js:31-34 | when the search fails, the field is "N/A" and the pattern matches nowhere |
| Extractor.FieldValueIsLeftmostRegexMatch | pages/index.js:31-34 | a field is "N/A" if and only if its pattern matches nowhere; otherwise it is group 1 of the leftmost match |
| Extractor.LabelWithoutValue | pages/index.js:31-34 | a label occurrence that gives no match has no capture-class character after its `[:\s]*` run, so only such occurrences are passed over |
| Extractor.SkipNonInitials | pages/index.js:31-34 | positions whose character does not fold to the label's first letter never change the search result |
| Extractor.NoRoomForLabel | pages/index.js:31-34 | the search finds nothing once too few characters are left for the label |
| Extractor.RunEndIgnoresCase | pages/index.js:31-34 | texts equal up to ASCII case have the same greedy runs |
| Extractor.WordsEndIgnoresCase | pages/index.js:31-34 | texts equal up to ASCII case have the same label ends |
| Extractor.MatchAtIgnoresCase | pages/index.js:31-34 | texts equal up to ASCII case have the same capture at every position |
| Extractor.FirstMatchIgnoresCase | pages/index.js:31-34 | texts equal up to ASCII case give the same leftmost capture |
| Extractor.ExtractKeyValuesIgnoresCase | pages/index.js:29-36 | the `/i` flag: two texts differing only in letter case extract the same four values |
| Csv.Row | pages/index.js:66 | the template `${key},${value}`; no contract of its own, pinned by PlateletRowCells |
| Csv.Rows | pages/index.js:66 | `.map` of the template over the entries; no contract of its own, pinned by CsvLines, which reads the rows back |
| Csv.Join | pages/index.js:67 | `.join("\n")`; no contract of its own, pinned by SplitJoin (split undoes it) and JoinEndsWithLastPart (no trailing separator) |
| Csv.CsvContent | pages/index.js:63-67 | the header, a line feed, then the joined rows; no contract of its own, pinned by ContentLines and ContentEnd |
| Csv.CsvText | pages/index.js:63-67 | the CSV text of the fields extracted from the page text; no contract of its own, pinned by CsvLines and CsvHasNoTrailingLineFeed |
| Csv.Split | pages/index.js:67 | splitting yields at least one part |
| Csv.SplitWithoutSeparator | pages/index.js:67 | a text without the separator is one part |
| Csv.SplitAtFirstSeparator | pages/index.js:67 | splitting cuts at the first separator |
| Csv.SplitJoin | pages/index.js:67 | splitting undoes `join` when no part holds the separator |
| Csv.ValueHasNoLineFeed | pages/index.js:31-34 | no extracted value contains a line feed |
| Csv.JoinEndsWithLastPart | pages/index.js:67 | a joined text ends with the last character of its last part |
| Csv.ExtractedIsLineFree | pages/index.js:65 | no value of an extracted mapping contains a line feed |
| Csv.ContentLines | pages/index.js:63-67 | the lines of the CSV text of any line-free mapping are the header, then one `key,value` row per entry |
| Csv.CsvLines | pages/index.js:63-67 | the CSV text read back line by line is "Parameter,Value" and then `key,value` for the four fields in order: five lines |
| Csv.ContentEnd | pages/index.js:63-67 | the CSV text ends with the last character of the PlateletCount value |
| Csv.CsvHasNoTrailingLineFeed | pages/index.js:63-67 | the CSV text never ends with a line feed |
| Csv.PlateletRowCells | pages/index.js:66 | without quoting, the PlateletCount row splits at commas into its key followed by the comma-separated pieces of its value |
| Samples.ReportHemoglobin | pages/index.js:31 | the sample report's Hemoglobin value is 13.5 |
| Samples.ReportRbc | pages/index.js:32 | the sample report's RBC value is 4.8 |
| Samples.ReportWbc | pages/index.js:33 | the sample report's WBC value is 6000 |
| Samples.ReportPlateletCount | pages/index.js:34 | the sample report's PlateletCount value is 250,000 |
| Samples.FullReport | pages/index.js:29-36 | "Hemoglobin: 13.5 RBC 4.8 WBC: 6000 Platelet Count: 250,000" yields 13.5 / 4.8 / 6000 / 250,000 |
| Samples.NoLabels | pages/index.js:29-36 | "no data here" yields "N/A" for all four fields |
| Samples.FullReportCsv | pages/index.js:63-67 | the CSV text of the sample report, written out line by line |
| Samples.FullReportPlateletCells | pages/index.js:66 | the sample's PlateletCount row has three comma-separated cells: PlateletCount, 250 and 000 |
| Samples.RepeatedFirstHasNoValue | pages/index.js:32 | in "RBC ok, RBC 5" the first `RBC` does not match |
| Samples.RepeatedSecondHasValue | pages/index.js:32 | in "RBC ok, RBC 5" the second `RBC` matches with capture 5 |
| Samples.LaterOccurrence | pages/index.js:32 | in "RBC ok, RBC 5" the RBC value is 5, from the later occurrence |
| Samples.ManyDotsTaken | pages/index.js:32 | "rbc 1.2.3" gives RBC 1.2.3: the class accepts any digits and dots |
| Samples.LoneDotTaken | pages/index.js:33 | "WBC:." gives WBC ".", not "N/A" |
| Samples.JoinedPlateletCount | pages/index.js:34 | "PLATELETCOUNT 150" gives PlateletCount 150: `\s*` allows no space between the words |
| History.Storage.constructor | pages/index.js:13 | the storage slot starts with what was saved, or is absent |
| History.Page.constructor | pages/index.js:8-10 | a freshly mounted page has an empty history and empty text |
| History.Page.Synced | pages/index.js:56-59 | the invariant: the slot holds exactly the history, or it is absent and the history is empty; established by Load and Clear and preserved by Upload |
| History.Page.Load | pages/index.js:12-15 | the history becomes the stored list, or `[]` when the slot is absent; the invariant holds afterwards |
| History.Page.Clear | pages/index.js:24-27 | the history becomes empty and the slot is removed; the invariant holds afterwards |
| History.Page.Upload | pages/index.js:38-60 | with no file, or when the request rejects, nothing changes; with a reply without text, neither history nor slot changes; otherwise the report `{fileName, extractKeyValues(text)}` is appended after the unchanged earlier reports, and the slot holds the new history; the invariant is preserved |
| History.FirstVisit | pages/index.js:12-15 | loading with an absent slot gives an empty history |
| History.ReloadAfterUpload | pages/index.js:38-60 | after an upload, a newly loaded page shows the same history, which ends in the new report |
| History.UploadAfterClear | pages/index.js:24-27 | after a clear, a newly loaded page shows `[]`, and the next upload leaves a history of exactly one report, which is stored |

## Left out

- `pages/api/extract.js` is not part of this model. It covers upload parsing, the OCR engine call and temporary-file cleanup. The server's reply is an input to `Upload`: a rejected request, a body with the OCR text, or a body without `text` (the error replies).
- The alert on line 39, the `loading` flag (lines 41, 52), the file picker and preview URL (lines 17-22), and React rendering: these are UI with no effect on the modelled state.
- The `fetch` is asynchronous, so React closures see stale state, and a clear made while an upload is in flight would be undone by that upload. In the model each upload is atomic.
- JSON and `localStorage`. The slot holds a list of reports or nothing. Malformed stored JSON would make `JSON.parse` on line 13 throw, and the model does not claim it degrades to `[]`.
- The CSV download (lines 69-76) and the PDF export (lines 79-88) are browser and library calls. Only the CSV text is modelled.
- History.Page.Upload: `localStorage.setItem` on line 59 is taken to succeed. If it throws (a full storage quota, say), the program already holds the new history in memory (line 58) while the slot keeps the old one, so `Synced` fails; the model's `old(Synced()) ==> Synced()` holds only for writes that succeed.
- History.Page.Upload: a reply without `text` sets the page text to `undefined` on line 51. The model stores `""` there, which every use treats as falsy in the same way.
- Text is a sequence of Unicode scalar values, while a JavaScript string is a sequence of UTF-16 code units. A text holding a lone surrogate cannot be represented, and a character outside the Basic Multilingual Plane takes one position instead of two. No label or class character is a surrogate, so no field value changes.
- Each field is computed by its own search over the whole text, with no shared state. So the independence of the four searches holds by construction, and no separate lemma states it.
