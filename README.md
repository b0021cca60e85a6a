# Spreadsheet uploader and payload dispatcher — a Dafny model

The application is a small interactive page. A user uploads a CSV file or a
spreadsheet workbook. The page reshapes every row into a record
`{main_item, children}`: `main_item` is the row's value under the column
`result_code`, and `children` is the rest of the row without its first two
columns and without `result_code`. When the user presses "Send Data", the
list of records is either stored in the session slot `api_payload`
(simulate mode) or POSTed to an endpoint, in which case the decoded JSON
response is stored. The page then shows the slot, or a "nothing received
yet" notice while it is unset.

The model has six modules, one file each:

- `wrappers.dfy` (`Wrappers`): `Option` and `Result`.
- `rows.dfy` (`Rows`): a row as an ordered sequence of `(label, value)` fields. It holds the label lookup `row[key]` (fails with `KeyError`) and the label drop `row.drop(labels, errors="ignore")` (total; absent labels are ignored).
- `records.dfy` (`Records`): the dataset, one record per row (`MakeRecord`), the build loop (`BuildPayload`, a `while` loop proved against the recursive specification `Transform`), and what the payload contains.
- `readers.dfy` (`Readers`): the choice between the CSV parser and the workbook parser, made from the file name.
- `receiver.dfy` (`Receiver`): the session class with its one field `slot`, the `Send` method, the receiver display, and lemmas about a series of presses.
- `app.dfy` (`App`): one run of the page script, tying the pieces together.

Cell values are an opaque type parameter `V`. The endpoint's decoded JSON
response is an opaque type parameter `J`. The parsers, the HTTP exchange,
the button press and the simulate setting are all inputs.

Points where the code's behaviour is easy to misread:

- `raise_for_status` raises only for status codes 400 to 599, not for every non-2xx code. So a 1xx or 3xx response with a JSON body is stored (`Receiver.Decoded`).
- The lookup's `KeyError` names the missing key (`result_code`), not the row index.
- An error raised while building the payload is not caught by the page script. It ends the run: nothing is sent and the receiver section is not reached (`App.Rerun`).
- `df.columns[0]` and `df.columns[1]` are evaluated inside the loop, after the lookup. So a dataset with no rows never raises, and a dataset with rows and fewer than two columns raises `KeyError` if `result_code` is missing and `IndexError` otherwise.

## Model

| member | source | states |
|---|---|---|
| Rows.Lookup | app.py:49 | The lookup succeeds exactly when the label is in the row. On success the result is the value of a field carrying that label. On failure the error is `KeyError` naming that label. |
| Rows.LookupAt | app.py:49 | In a row with unique labels, looking up the label of column i gives exactly the value in column i. |
| Rows.Drop | app.py:51 | Every kept field is a field of the row whose label is not dropped. Every field of the row whose label is not dropped is kept. The result is never longer than the row. |
| Rows.DropAppend | app.py:51 | Dropping distributes over concatenation of rows, so it works field by field in column order. |
| Rows.DropIdempotent | app.py:51 | Dropping the same labels twice gives the same row as dropping them once. |
| Rows.DropUnchangedIff | app.py:51 | A drop leaves the row unchanged if and only if none of the row's labels is among the dropped labels: removing absent labels is a no-op (`errors="ignore"`). |
| Rows.DropLabelSet | app.py:51 | Two label lists with the same members drop the same fields, so repeated labels in the list make no difference. |
| Rows.DropTwice | app.py:51 | Dropping one label list and then another equals dropping both lists at once. |
| Rows.DropUniqueNames | app.py:51 | A drop keeps labels unique. |
| Rows.DropSubsequence | app.py:51 | The kept fields stay in their original column order: the result is a subsequence of the row. |
| Rows.DropCharacterized | app.py:51 | On a row with unique labels, any order-preserving selection holding exactly the non-dropped fields is equal to the drop. So the drop adds nothing, removes nothing else and reorders nothing. |
| Records.MakeRecord | app.py:49-55 | A row yields a record exactly when it has a `result_code` field and the dataset has at least two columns. A missing `result_code` raises `KeyError("result_code")`, and this is checked first. Otherwise fewer than two columns raise `IndexError` at the first missing position. `main_item` is the lookup's value. |
| Records.BuildPayload | app.py:46-55 | The loop returns exactly the specification `Transform`: records appended in row order, stopping at the first row that raises. |
| Records.TransformPerRow | app.py:46-55 | A successful build has exactly one record per row, and record k is the record built from row k. |
| Records.TransformSucceedsIff | app.py:46-55 | The build succeeds if and only if every row yields a record. |
| Records.FirstFailure | app.py:47-51 | Every row before the returned position yields a record, and the row at that position (when it exists) raises. |
| Records.TransformFirstError | app.py:46-51 | The build fails if and only if some row raises. It then fails with the first such row's error and returns no partial payload. |
| Records.RecordChildren | app.py:51 | `children` holds no field labelled like column 0, column 1 or `result_code`. Every field of children is a field of the row, unchanged. Every other field of the row is in children. Children keep the row's column order. |
| Records.RecordChildrenDetermined | app.py:51 | For a row with unique labels, children are the only order-preserving selection of exactly the non-excluded fields. |
| Records.ResultCodeAmongFirstTwo | app.py:51 | When `result_code` is column 0 or column 1, the children equal the row without its first two columns: the drop by name is a no-op. |
| Records.MainItemIsResultCode | app.py:49 | In a well-formed dataset, each record's `main_item` is its row's value in the `result_code` column. |
| Records.WellFormedOutcome | app.py:46-51 | For a well-formed dataset: no rows gives an empty payload. With rows, a missing `result_code` column gives `KeyError`, fewer than two columns give `IndexError`, and otherwise the build succeeds. |
| Records.ExampleWidget | app.py:46-55 | Columns `id, name, result_code, qty` and the row `1, widget, OK, 5` give the single record `{main_item: OK, children: {qty: 5}}`. |
| Records.ExampleResultCodeFirst | app.py:46-55 | Columns `result_code, b, c` and the row `X, 1, 2` give `{main_item: X, children: {c: 2}}`. |
| Records.ExampleMissingResultCode | app.py:49 | A dataset without a `result_code` column raises `KeyError("result_code")`. |
| Readers.CsvNameIff | app.py:35-38 | The CSV parser is chosen if and only if the name ends in a dot followed by c, s and v, each in either case. Every other name goes to the workbook parser. |
| Readers.CsvSuffixSelectsCsv | app.py:35-36 | Any name followed by `.csv` in any letter case selects the CSV parser. |
| Readers.ExampleNames | app.py:35-38 | `REPORT.CSV` and `data.Csv` go to the CSV parser. `data.xlsx`, `csv` and `data.csv.xls` go to the workbook parser. |
| Receiver.Decoded | app.py:69-71 | The response yields a value if and only if a response arrived, its status is outside 400 to 599, and its body decodes as JSON. That value is the decoded body. |
| Receiver.Session.constructor | app.py:81-84 | A new session has an unset slot. |
| Receiver.Session.Send | app.py:63-74 | Simulate mode stores exactly the prepared payload and reports the internal post. Real mode stores the decoded response only when no step raised. On any failure the slot keeps its previous content and an error is reported. |
| Receiver.Session.Shown | app.py:81-84 | The receiver section shows "nothing received yet" if and only if the slot is unset. Otherwise it shows the slot's content. |
| Receiver.ReplayAllFailed | app.py:68-74 | A series of presses that all fail leaves the slot exactly as it was. |
| Receiver.ReplayLastSuccess | app.py:64-71 | After a series of presses, the slot holds what the last successful press delivered. |
| Receiver.ReplayUnsetIff | app.py:63-84 | After a series of presses, the slot is unset if and only if it was unset before and no press succeeded. Once set, it is never unset again. |
| App.Rerun | app.py:33-84 | With no file, only the slot is shown and nothing changes. With a file of the selected format: if building raises, the run ends with that error and the slot is untouched. Otherwise the payload is prepared, sent (when pressed) as `Send` does, and the receiver section shows the resulting slot. |

## Left out

- Page rendering (title, sidebar, file picker, data preview, JSON display, success and error banners) is not modelled. A banner becomes a `Notice` value, and the text of the error message is not modelled.
- The endpoint URL, request headers, JSON serialisation of the request body and the absence of a timeout are not modelled. The network exchange is an input of type `Exchange`.
- CSV and workbook parsing is not modelled. The uploaded file's parsers are an input (`App.Upload.parse`) that hands over an already decoded dataset. Parser failures (malformed or empty files) are not modelled.
- Cell value types are not modelled: empty cells as NaN, numeric scalars, and the common-type conversion a row undergoes during iteration. Values are opaque.
- Duplicate and non-string column labels are not modelled. `WellFormed` assumes unique string labels, as the parsers produce by renaming duplicates.
- Readers.CsvNameIff: only ASCII letters are lower-cased in `Readers.Lower`, whereas Python's `str.lower` also folds other Unicode letters. No non-ASCII letter lowers to `.`, `c`, `s` or `v`, so this should not change which parser is chosen.
- Concurrency is not modelled, and a sequence of page runs is not modelled as repeated `App.Rerun` calls. Presses across runs are modelled by `Receiver.Replay` over the pure transition `Receiver.NextSlot`, which `Session.Send` implements.
