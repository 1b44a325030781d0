# Markup bookkeeping of the annotation workflows

This project models the exit-time bookkeeping of three 3D Slicer annotation
scripts, and the pure checks of their workflow test suite:

- `annotation_mac/auto_script.py`. Its `onAppExit` does the following:
  - it reads `markup_log.csv`;
  - it names every markup node by its filename-encoded name, or by that name plus a fresh trailing number;
  - it saves the nodes and records them;
  - it stamps a deletion time on the log entries no node claimed;
  - it writes the log back;
  - it marks the report `Done` in the main `log.csv`.
- `annotation_windows/auto_script.py`. Its `onAppExit` does the same work. The difference is that the file name is the node's name plus its node id, with spaces made underscores and no numbering.
- `annotation_mac_xlsx/auto_script.py`. Its `onAppExit` does the following:
  - it keeps the log in `markup_log.xlsx`, addressed by header name;
  - it names new nodes by markup type (`point`, `line`, `roi`) plus a fresh number;
  - it collects save failures (`OSError`) into a timestamped error workbook.
- `test_annotation_workflow.py`. The model covers only the assertions the tests make about file contents: the `log.csv` header and rows, the `./` path normalisation, duplicate and sequential report numbers, the deleted-markup scans of both log formats, the summary totals, and the argument handling.

Modules:

- `PyText` gives the Python string operations the scripts rely on: `strip` (with Python's full set of Unicode whitespace), `replace`, `split`, `split(sep, n)`, `readlines` with universal newlines (`\n`, `\r` and `\r\n` each end a line), `int()` on ASCII digits, and `re.sub` on one character.
- `Assoc` models a Python `dict` as an insertion-ordered association list. An overwrite keeps the key's position.
- `FilenameCodec` models `encode_filename` and `decode_filename`.
- `Numbering` covers trailing numbers, the `max_number` scan and fresh names. It is shared by both numbering workflows.
- `MarkupCsv` covers the CSV log reader and writer, and the `Done` rewrite of `log.csv`.
- `LogUpdate` holds the record and tombstone steps that the macOS and Windows scripts share.
- `MacExit`, `WindowsExit` and `XlsxExit` model the three exit routines.
- `Integrity` models the test checks.

The host application is an input. Each markup node is given as its name (plus its id or class name) and the outcome of saving it. That outcome is whether the save succeeded and the JSON text it wrote, or for the XLSX workflow whether it raised `OSError`. The current time is a string parameter. The set of file names whose `os.remove` raised is a parameter too, because such an exception skips the deletion stamp.

Python exceptions that end `onAppExit` become `Abort`:
- the `KeyError` or `IndexError` of a malformed workbook;
- the unbound `markup_type` of an unknown node class.

## Model

| member | source | states |
|---|---|---|
| FilenameCodec.EncodeTableContents | annotation_mac/auto_script.py:43-56 | The replacement dict has twelve entries in literal order. The duplicated `"` key keeps its first position and takes its last value, `_E_`. |
| FilenameCodec.ReplaceEach | annotation_mac/auto_script.py:57-58 | Applying the replacements in turn leaves a string unchanged when no pattern occurs in it. |
| FilenameCodec.EncodeIsPerCharacter | annotation_mac/auto_script.py:42-60 | `encode_filename` equals a single left-to-right per-character substitution. Each unsafe character becomes its three-letter code and every other character is kept. |
| FilenameCodec.EncodeSafe | annotation_mac/auto_script.py:42-60 | An encoded name contains none of the twelve unsafe characters. A name with none of them is returned unchanged. |
| FilenameCodec.EncodeIdempotent | annotation_mac/auto_script.py:42-60 | Encoding twice is the same as encoding once. |
| FilenameCodec.EncodeQuote | annotation_mac/auto_script.py:49-56 | A double quote is encoded as `_E_`, the later of its two dict entries. |
| FilenameCodec.EncodeNeverIntroducesW | annotation_mac/auto_script.py:49-56 | `W` occurs in an encoded name exactly when it occurs in the name, so the decoder's `_W_` code is never produced for a quote. |
| FilenameCodec.DecodeQuoteCodes | annotation_mac/auto_script.py:62-80 | The decoder maps both `_W_` and `_E_` back to a double quote. |
| FilenameCodec.RoundTripPlain | annotation_mac/auto_script.py:42-80 | A name with no unsafe character and no decoder code decodes back to itself after encoding. |
| FilenameCodec.RoundTripCounterexample | annotation_mac/auto_script.py:42-80 | `*S:` encodes to `_A_S_C_`, which decodes to `_A/C_`. So `decode_filename` is not an inverse of `encode_filename`. |
| FilenameCodec.ScanDecodeRoundTrip | annotation_mac/auto_script.py:42-80 | A one-pass decoder recovers every underscore-free name from its encoding. |
| Numbering.MaxNumber | annotation_mac/auto_script.py:267-279 | The scan's result bounds every parseable trailing number of the keys. It is 0 or one of those numbers. |
| Numbering.FreshNameNumber | annotation_mac/auto_script.py:302 | The trailing number of `<base>_<n>.json` parses back to `n`. |
| Numbering.FreshAboveMaxIsNew | annotation_mac_xlsx/auto_script.py:233-267 | A name numbered one above the maximum is not already a key. |
| MarkupCsv.ParseLine | annotation_mac/auto_script.py:259-266 | A line is accepted exactly when its stripped text holds at least three commas. An accepted row has comma-free key, `created_at` and content fields, and the four fields joined by commas give back the stripped line. |
| PyText.SplitNThreeCuts | annotation_mac/auto_script.py:260-261 | `split(sep, 3)` on a string with three separators gives four parts. |
| MarkupCsv.ParseRows | annotation_mac/auto_script.py:256-266 | Loading keeps keys distinct. Every accepted row's key is in the loaded log and earlier keys are kept. |
| MarkupCsv.ParseRowsContents | annotation_mac/auto_script.py:256-266 | The loaded keys are the earlier keys, in their places, plus the keys of accepted rows. Each key a row names holds the entry of its last accepted row. Every other key keeps its earlier entry. |
| MarkupCsv.LastRowIn | annotation_mac/auto_script.py:259-266 | A key has a last row exactly when some accepted row names it. |
| MarkupCsv.LastRowIsLast | annotation_mac/auto_script.py:259-266 | The last row is an accepted row of the key, and no later accepted row names the key. |
| MarkupCsv.LineRoundTrip | annotation_mac/auto_script.py:346-350 | A writable entry's written row parses back to the same key and entry, with the content wrapped in one pair of quotes. |
| MarkupCsv.LogRoundTrip | annotation_windows/auto_script.py:201-211 | For entries that are writable (no comma in the first three fields, no `\n` or `\r` in any field, no whitespace that `strip` would remove at either end of the line), reading a written log gives the same keys in the same order, with every content quoted once more. |
| MarkupCsv.CarriageReturnKeyDropped | annotation_windows/auto_script.py:203-211 | A key holding a carriage return splits its row in two on reading back. The first part is a line with no comma, which the reader skips. |
| MarkupCsv.QuotesAccumulate | annotation_windows/auto_script.py:265-269 | For writable entries (as for `LogRoundTrip`), two write/read cycles wrap each content in two pairs of quotes. |
| MarkupCsv.DoneStatus | annotation_mac/auto_script.py:358 | The status is `True` exactly when there are markup nodes, and empty exactly when there are none. |
| MarkupCsv.SetDone | annotation_mac/auto_script.py:363-366 | The fields are padded to at least three. The third field becomes the status and all other fields are kept. |
| MarkupCsv.RewriteReportLog | annotation_windows/auto_script.py:277-288 | The rewrite has one output line per input line. A line not starting with `<report>,` is copied verbatim. A matching line ends in a newline and its fields, padded to three, carry the status third, with the other fields kept. |
| MarkupCsv.RewriteLineFields | annotation_mac/auto_script.py:362-367 | A line of the report is rewritten to its fields with the third set to the status, and ends in a newline. |
| LogUpdate.SanitizeContent | annotation_mac/auto_script.py:313 | The logged content is the JSON with every newline deleted and then every comma made `;`. So it has no comma and no newline, and each of its characters is `;` or a character of the JSON. |
| LogUpdate.RecordSave | annotation_mac/auto_script.py:307-329 | A failed save leaves the log unchanged. A successful one appends a new key created now, or refreshes an existing key's content in place and clears its deletion time. |
| LogUpdate.RecordContent | annotation_mac/auto_script.py:315-323 | Recording stored content adds exactly the saved key. A new key is appended with the current creation time; an existing key keeps its place and creation time, takes the content and loses its deletion time. Every other key keeps its entry. |
| LogUpdate.Tombstone | annotation_mac/auto_script.py:331-344 | Keys, creation times and contents are kept, and so are claimed entries and entries already stamped. An entry whose removal raised is left exactly as it was. Every other unclaimed entry with no deletion time gets the current time as its deletion time. |
| LogUpdate.RecordAllCreated | annotation_windows/auto_script.py:226-248 | Old entries keep their creation time and every added entry is created now. |
| LogUpdate.ReconcileKeys | annotation_windows/auto_script.py:226-263 | The keys after the exit routine are the old keys plus the successfully saved names. Old keys keep their positions. |
| LogUpdate.ReconcileCleared | annotation_windows/auto_script.py:235-263 | Every successfully saved name ends with an empty deletion time. |
| LogUpdate.ReconcileCreated | annotation_mac/auto_script.py:315-320 | Creation times never change. Every entry added this run has no deletion time. |
| LogUpdate.ReconcileUnclaimed | annotation_windows/auto_script.py:250-263 | An unclaimed entry keeps its content. It keeps an existing deletion time, or is stamped now when its removal did not raise. An entry whose removal raised is left exactly as it was. |
| LogUpdate.ReconcileFailedSave | annotation_windows/auto_script.py:226-263 | An entry whose save failed, or that nobody claimed, is otherwise untouched. |
| LogUpdate.LastSavedIsLast | annotation_windows/auto_script.py:226-248 | A name's last successful save is one of its saves in the loop, and no later save of that name succeeded. |
| LogUpdate.LastSavedIn | annotation_windows/auto_script.py:226-248 | A name has a last successful save exactly when one of its saves succeeded. |
| LogUpdate.ReconcileContent | annotation_mac/auto_script.py:307-344 | After the exit routine, every entry of a successfully saved name holds the sanitised JSON of that name's last successful save. |
| MacExit.FindKey | annotation_mac/auto_script.py:289-293 | The key search finds the target exactly when it is a key of the log. |
| MacExit.Choose | annotation_mac/auto_script.py:285-302 | A node reuses `<encoded>.json` exactly when that key exists. Otherwise it takes `<encoded>_<max+1>.json`. |
| MacExit.SaveNode | annotation_mac/auto_script.py:284-329 | One iteration keeps keys distinct and all numbers bounded. A fresh name is new and carries its number, which becomes the maximum. |
| MacExit.SaveAllFresh | annotation_mac/auto_script.py:267-305 | Every fresh name of the loop is absent from the loaded log, and its number lies between the loaded maximum and the final one. |
| MacExit.SaveAllIncreasing | annotation_mac/auto_script.py:297-302 | Fresh numbers strictly increase in scene order. |
| MacExit.FreshNamesDistinct | annotation_mac/auto_script.py:297-302 | No two nodes get the same fresh name. |
| MacExit.SaveAllReused | annotation_mac/auto_script.py:285-302 | Every claimed name is the node's encoded name plus `.json`, or starts with the encoded name plus `_`. |
| MacExit.SaveAllRecords | annotation_mac/auto_script.py:284-329 | The loop's log is the shared record step applied to each (claimed name, save outcome) in order. |
| MacExit.ExitReconcileIsShared | annotation_mac/auto_script.py:256-344 | The exit routine's log equals the shared reconciliation of the loaded log with the loop's saves. |
| MacExit.ExitLog | annotation_mac/auto_script.py:346-350 | The written log starts with its header line. |
| WindowsExit.SafeName | annotation_windows/auto_script.py:219-222 | The name is followed by `_<id>` unless it contains `_vtkMRMLMarkups`, with every space made `_`, and ends in `.json`. The contract gives the length and each character. |
| WindowsExit.Saves | annotation_windows/auto_script.py:216-248 | Each node saves under its safe name, in scene order. |
| WindowsExit.ExitLog | annotation_windows/auto_script.py:265-269 | The written log starts with its header line. |
| WindowsExit.CommaNameNotReadBack | annotation_windows/auto_script.py:205-207 | The row of a name containing a comma does not read back under its own key. |
| XlsxExit.HeaderIndex | annotation_mac_xlsx/auto_script.py:219 | The header map has distinct keys, exactly the header cells. |
| XlsxExit.HeaderIndexLast | annotation_mac_xlsx/auto_script.py:219 | A header cell that occurs twice maps to its later column. |
| XlsxExit.RowEntry | annotation_mac_xlsx/auto_script.py:226-231 | A row yields an entry exactly when all four headers exist and address a column inside the row. |
| XlsxExit.LoadRowsAbort | annotation_mac_xlsx/auto_script.py:222-231 | Loading raises exactly when some row is empty, or has a truthy first cell but lacks a needed column. |
| XlsxExit.LoadRowsKeys | annotation_mac_xlsx/auto_script.py:222-231 | The loaded keys are exactly the truthy first cells of the rows, and they are distinct and non-empty. |
| XlsxExit.Existing | annotation_mac_xlsx/auto_script.py:249-257 | The reused key is the first key that matches the name with `.json` removed, when that key is truthy. Otherwise no key matches a non-empty name. |
| XlsxExit.TypeOf | annotation_mac_xlsx/auto_script.py:260-266 | Only the three markup classes give a type: `point`, `line` or `roi`. |
| XlsxExit.NextType | annotation_mac_xlsx/auto_script.py:258-267 | A known class gives its type. An unknown class reuses the type left over from an earlier node. |
| XlsxExit.SaveNode | annotation_mac_xlsx/auto_script.py:246-297 | The naming and saving step and its effects:<br>• it raises exactly when no key matches and no type is known;<br>• a reused key changes neither log nor maximum;<br>• a fresh `<type>_<max+1>.json` is new, and is logged only when its save did not raise;<br>• an `OSError` files an error row under the name. |
| XlsxExit.SaveNodeFresh | annotation_mac_xlsx/auto_script.py:259-267 | A fresh name carries its number and starts with its type and `_`. |
| XlsxExit.SaveAllDone | annotation_mac_xlsx/auto_script.py:258-267 | The loop does not raise when a type is already known or every node has a known class. |
| XlsxExit.SaveAllFresh | annotation_mac_xlsx/auto_script.py:233-270 | Every fresh name is absent from the loaded log, and its number lies between the loaded and final maxima. |
| XlsxExit.SaveAllIncreasing | annotation_mac_xlsx/auto_script.py:258-267 | Fresh numbers strictly increase in scene order. |
| XlsxExit.SaveAllClaims | annotation_mac_xlsx/auto_script.py:270 | The claimed names are exactly the names of the loop's choices. |
| XlsxExit.SaveAllLog | annotation_mac_xlsx/auto_script.py:276-285 | The loop's log is the loaded log followed by one new entry per fresh name whose save did not raise, in scene order. |
| XlsxExit.LoggedComplete | annotation_mac_xlsx/auto_script.py:276-285 | Every fresh name saved without error is logged with the node's stripped name and the current time. |
| XlsxExit.LoggedSound | annotation_mac_xlsx/auto_script.py:276-285 | Every logged entry comes from such a node. |
| XlsxExit.SaveAllErrors | annotation_mac_xlsx/auto_script.py:287-297 | The error keys are exactly the names whose save raised `OSError`. |
| XlsxExit.Tombstone | annotation_mac_xlsx/auto_script.py:299-313 | An unclaimed entry gets the deletion time when its removal did not raise and it has no truthy deletion time yet. Every other entry is unchanged. |
| XlsxExit.TombstoneStable | annotation_mac_xlsx/auto_script.py:309-311 | Stamping again, at any later time, changes nothing. |
| XlsxExit.OutputSheet | annotation_mac_xlsx/auto_script.py:316-334 | An empty log writes no workbook. Otherwise the sheet has the fixed header and one row per entry, in order. |
| XlsxExit.Stored | annotation_mac_xlsx/auto_script.py:325-331 | A cell written as the empty string is stored blank and reads back as `None`. Every other cell is stored as written, and truthiness is kept. |
| XlsxExit.StoredLogIdentity | annotation_mac_xlsx/auto_script.py:325-331 | Storing leaves a log unchanged exactly when no entry has an empty-string field. Storing twice is storing once. |
| XlsxExit.OutputReadBack | annotation_mac_xlsx/auto_script.py:219-231 | Loading a written workbook gives back the written log as stored: the same keys in the same order, with empty-string fields read back as `None`. |
| XlsxExit.ErrorFileName | annotation_mac_xlsx/auto_script.py:339-340 | The error file name is the time with every colon made `-`, followed by `_error.xlsx`. |
| XlsxExit.ErrorBook | annotation_mac_xlsx/auto_script.py:336-360 | The error workbook exists exactly when errors exist. It has the six-column header and one row per error. |
| XlsxExit.ReconcileLog | annotation_mac_xlsx/auto_script.py:246-313 | The final log is the stamped loaded log followed by the newly logged entries. |
| XlsxExit.ReconcileErrors | annotation_mac_xlsx/auto_script.py:287-297 | The error log's keys are exactly the names whose save raised. |
| XlsxExit.ExitReadBack | annotation_mac_xlsx/auto_script.py:209-334 | When a workbook is written, reading it back gives the reconciled log as stored, with empty-string fields read back as `None`. |
| XlsxExit.ExitDone | annotation_mac_xlsx/auto_script.py:209-313 | A readable workbook and nodes of known classes never raise. |
| Integrity.HeaderOk | test_annotation_workflow.py:132-139 | The header passes exactly when it is `Report,Path,Done`. |
| Integrity.FirstInvalid | test_annotation_workflow.py:150-163 | The test passes exactly when every row has a digit report and a non-empty path. Otherwise it reports the first failing row number, counting the header as row 1. |
| Integrity.NormalizePath | test_annotation_workflow.py:180-181 | A leading `./` is dropped and any other path is kept. |
| Integrity.SessionsListed | test_annotation_workflow.py:224-230 | The test passes exactly when every session is among the logged paths. |
| Integrity.NoDuplicatesIff | test_annotation_workflow.py:238-252 | No duplicate is reported exactly when the stripped report cells are pairwise distinct. |
| Integrity.Sort | test_annotation_workflow.py:309 | The sorted numbers are ordered and a permutation of the input. |
| Integrity.SequentialIff | test_annotation_workflow.py:298-321 | The test passes exactly when the digit reports are a non-empty permutation of 1..n. |
| Integrity.SequentialPass | test_annotation_workflow.py:298-321 | A pass means the numbers are distinct, lie in 1..n, and include n. |
| Integrity.CsvDeletedContents | test_annotation_workflow.py:440-451 | Exactly the rows with a deletion time other than empty or `None` are listed, each with at most 100 characters of description. |
| Integrity.XlsxScan | test_annotation_workflow.py:414-429 | Every listed markup has a deletion time that is non-blank and not `None`. |
| Integrity.FirstEmpty | test_annotation_workflow.py:414-415 | The row loop's stopping point is the first empty row, or the end. Every row before it is non-empty. |
| Integrity.XlsxScanSelects | test_annotation_workflow.py:414-429 | The scan lists, in order, exactly the rows before the first empty row whose first cell is truthy and whose `deleted_at` passes the test. |
| Integrity.XlsxScanComplete | test_annotation_workflow.py:414-429 | Every such row is listed with its file name (`unknown` past the row's end), its description (empty past the end) and its stamp. |
| Integrity.XlsxScanSound | test_annotation_workflow.py:414-429 | Every listed markup comes from such a row. |
| Integrity.XlsxDeletedOfWritten | test_annotation_workflow.py:406-429 | Scanning a workbook the XLSX script wrote lists exactly its stamped entries, in order, each with its stored report content (`None` for an empty one). |
| Integrity.CollectTotal | test_annotation_workflow.py:456-463 | The summed totals equal the number of deleted markups found. The log is empty exactly when no session had one. |
| Integrity.SummaryOfCollect | test_annotation_workflow.py:535-537 | No summary is written exactly when nothing was deleted. Otherwise it counts the reports with deletions, at most the total deleted. |
| Integrity.Verbosity | test_annotation_workflow.py:687-692 | `--quiet` gives 0, otherwise `--verbose` gives 2, and the default is 1. |
| Integrity.Validate | test_annotation_workflow.py:662-692 | The run stops with an error exactly when both `--directory` and `--workflow` are given, whatever `--quiet` and `--verbose` say. Otherwise it runs at the chosen verbosity. |

## Left out

- The 3D Slicer GUI, toolbars, module selection, the report dock and every other routine outside `onAppExit` are not modelled. They have no bookkeeping.
- File I/O is replaced by values. A file is its text, or `None` when absent, and a workbook is its header and rows.
- `os.path.exists`, `os.remove`, `os.replace`, `load_workbook` and `wb.save` are not modelled as effects. Only their influence on the log is kept, through the remove-error set.
- `slicer.util.saveNode`, `json.load` and `json.dumps` become the per-node save outcome and the JSON text the model is given. `extract_markup_content` is an opaque string in the error row.
- `datetime.now().isoformat()` becomes a string parameter.
- `int()` accepts only an optional sign and ASCII digits. Surrounding whitespace, underscores between digits and non-ASCII digits are not accepted.
- The XLSX cells are text or empty. A number or date cell in the key column would make `markup.replace` raise `AttributeError` (annotation_mac_xlsx/auto_script.py:237, 252), and this is not modelled.
- The XLSX save loop catches only `OSError` (annotation_mac_xlsx/auto_script.py:289). Any other exception from `saveNode` or `SetDescription` would end `onAppExit`; the save outcome has no such case.
- `str.isdigit` is modelled as ASCII digits only (test_annotation_workflow.py:154, 303). Python also accepts other digit characters such as `²`, for which the later `int()` raises.
- A `csv.DictReader` row shorter than the header gives `None` for the missing cells, so the test's `.strip()` (test_annotation_workflow.py:152) would raise. The model takes each row's cells as strings.
- openpyxl stores a cell written as the empty string as a blank cell, which `cell.value` reads back as `None`. The model takes this rule from openpyxl's cell writer, which is not part of this model.
- openpyxl turns a text starting with `=` into a formula and rejects control characters in a cell. Neither is modelled: keys, contents and times are taken to be stored as text.
- Python `set` iteration order in the deletion loop is not modelled. The stamp of each entry does not depend on it.
- The failure branch of the `log.csv` rewrite (`except Exception`) is not modelled, since it only prints.
- In the test file, the directory walks, `Path.exists`, the report-file checks, the text and JSON report writers, and `unittest`/`argparse` plumbing are not modelled. They only touch the file system.
- MacExit.ExitLog: the contract states only the header line. The content is the reconciled log, which `MacExit.ExitReconcileIsShared` and the `LogUpdate` lemmas describe.
- WindowsExit.ExitLog: the contract states only the header line. The content is `LogUpdate.Reconcile` of the node saves.
- MarkupCsv.LogRoundTrip: the round trip is proved only for writable entries. These have no comma in key, `created_at` or content, no `\n` or `\r` in any field, and no leading or trailing whitespace. Other entries do not read back. `MarkupCsv.CarriageReturnKeyDropped` and `WindowsExit.CommaNameNotReadBack` show two such losses.
- MarkupCsv.QuotesAccumulate: proved only for writable entries, for the same reason as `LogRoundTrip`.
- XlsxExit.Existing: the no-match clause is stated only for a non-empty name. For the empty name, an empty key would match and still be falsy. The loader never keeps such a key.

## Findings

| source | as written | input that shows it | evidently intended | confidence | as-written member | corrected member |
|---|---|---|---|---|---|---|
| annotation_mac/auto_script.py:62-80 | `decode_filename` replaces the codes one after another, so a decoded character can join letters from neighbouring codes into a new code. | the node name `*S:` encodes to `_A_S_C_`, which decodes to `_A/C_` | a decoder that inverts `encode_filename` | not executed | FilenameCodec.RoundTripCounterexample | FilenameCodec.ScanDecodeRoundTrip |
