# Trainer string handling of the sign-language classifier

This project models the deterministic core of the model trainer
`model-ml/trainer/.ipynb_checkpoints/flex_sibi-checkpoint.py`: the text
processing that decides where data is read from and where the trained
pipeline and the training report are written, and the example payload of the
report.

- `PyText` — the Python primitives the trainer uses: `str.split` with a
  one-character separator, `"/".join`, the slices `s[:-k]` and `s[k:]`,
  `str.startswith`, and POSIX `os.path.join` of two arguments.
- `Failures` — the exceptions the trainer raises (IndexError, the two
  ValueErrors, the plain Exception of the BigQuery loader) and a `Result`
  type carrying a value or one of them.
- `GcsUri` — `process_gcs_uri`: a `gs://bucket/path/file` URI split on `/`
  into scheme, bucket, path and file. It is given as a specification
  function and as a method written step by step like the source and proved
  equal to it.
- `GcsExport` — the location strings `pipeline_export_gcs` and
  `report_export_gcs` return: the parse error first, then the ValueError for a
  scheme other than `gs:`, then `scheme + "//" + os.path.join(bucket,
  os.path.join(path, name))`.
- `BqUri` — the checks and the split of `load_data_from_bq`: the `bq://`
  prefix, the three `.`-separated names, the project id without its first five
  characters, and the query text.
- `ExampleReport` — the nested loop of `prepare_report` that builds
  `buffer_example_data`, as a method over the rows and cells, proved against a
  specification function; for non-empty data with non-empty rows that
  function is proved to be the array literal `[[a, b], \n[c, d]]`.

Edge cases of the code are modelled as written, and lemmas name them: a bucket
name with a `.` is taken for a file, a last directory name with a `.` is taken
for a file, only one trailing `/` is stripped, a `//` after the bucket makes
the path absolute so `os.path.join` drops the bucket, and an empty row or
empty data leave unbalanced brackets in the report payload. The returned join
expression is also stated for an empty bucket (`gs:///dir`), where it would
promote the first path segment; the program never returns that value,
because the storage client refuses a bucket without a name before the
upload.

## Model

| member | source | states |
|---|---|---|
| PyText.Split | model-ml/trainer/.ipynb_checkpoints/flex_sibi-checkpoint.py:173 | `str.split` gives at least one part and no part contains the separator |
| PyText.JoinSplit | model-ml/trainer/.ipynb_checkpoints/flex_sibi-checkpoint.py:173 | joining the parts of a split with the separator gives back the original text |
| PyText.SplitJoin | model-ml/trainer/.ipynb_checkpoints/flex_sibi-checkpoint.py:180 | joining separator-free parts and splitting again gives back the parts |
| PyText.SplitLength | model-ml/trainer/.ipynb_checkpoints/flex_sibi-checkpoint.py:57 | a split has exactly one more part than the text has separators |
| PyText.DropLast | model-ml/trainer/.ipynb_checkpoints/flex_sibi-checkpoint.py:230-231 | `s[:-k]` is a prefix of `s`, `k` shorter, or empty when `s` is shorter than `k` |
| PyText.DropFirst | model-ml/trainer/.ipynb_checkpoints/flex_sibi-checkpoint.py:58 | `s[k:]` is what follows the first `k` characters, or empty when `s` is shorter |
| PyText.Join | model-ml/trainer/.ipynb_checkpoints/flex_sibi-checkpoint.py:180 | `"/".join(parts)`; it carries no contract of its own: JoinSplit, SplitJoin and JoinLast state what it does |
| PyText.JoinLast | model-ml/trainer/.ipynb_checkpoints/flex_sibi-checkpoint.py:174 | with two parts or more, the joined text ends with the separator and the last part, which is what `url_arr[-1]` reads |
| PyText.StartsWith | model-ml/trainer/.ipynb_checkpoints/flex_sibi-checkpoint.py:54 | `str.startswith(prefix)` holds exactly when `prefix` is a prefix of the text |
| PyText.PosixJoin | model-ml/trainer/.ipynb_checkpoints/flex_sibi-checkpoint.py:201 | `os.path.join(a, b)`: an absolute `b` is the result; an empty `a` gives `b`; otherwise `a` and `b` with exactly one `/` between them, none added when `a` already ends with `/` |
| PyText.PosixJoinSlashBefore | model-ml/trainer/.ipynb_checkpoints/flex_sibi-checkpoint.py:201 | a relative `b` joined onto a non-empty `a` ends the result and follows a `/`: the one `a` ends with or the one inserted |
| PyText.PosixJoinNested | model-ml/trainer/.ipynb_checkpoints/flex_sibi-checkpoint.py:205 | the nested `os.path.join(bucket, os.path.join(path, name))` equals joining left to right, as the three-argument `os.path.join` does, for all inputs |
| GcsUri.LastSegment | model-ml/trainer/.ipynb_checkpoints/flex_sibi-checkpoint.py:174 | `url_arr[-1]` holds no `/`; it is the whole URI when the URI has no `/`, and otherwise the URI ends with `/` followed by it: the text after the last `/` |
| GcsUri.KeptSegments | model-ml/trainer/.ipynb_checkpoints/flex_sibi-checkpoint.py:173-177 | the segments left after popping a file are free of `/` |
| GcsUri.ParseGcsUri | model-ml/trainer/.ipynb_checkpoints/flex_sibi-checkpoint.py:160-183 | the scheme, bucket and file it returns hold no `/`, and the file is empty or holds a `.` |
| GcsUri.ProcessGcsUri | model-ml/trainer/.ipynb_checkpoints/flex_sibi-checkpoint.py:173-183 | the step-by-step split, pop, index, join and trim returns exactly what ParseGcsUri specifies, IndexError included |
| GcsUri.ParseSucceedsIff | model-ml/trainer/.ipynb_checkpoints/flex_sibi-checkpoint.py:173-179 | parsing succeeds exactly when the URI has at least two `/`, or three when its last segment is popped as a file |
| GcsUri.FileIsLastSegment | model-ml/trainer/.ipynb_checkpoints/flex_sibi-checkpoint.py:174-177 | the file is non-empty exactly when the last segment has a `.`; it is then that segment and the URI is the kept segments plus `/` plus the file |
| GcsUri.KeptSegmentsText | model-ml/trainer/.ipynb_checkpoints/flex_sibi-checkpoint.py:178-180 | the kept segments joined are the scheme, second segment and bucket with `/` between them, then `/` and the untrimmed path |
| GcsUri.Reassembly | model-ml/trainer/.ipynb_checkpoints/flex_sibi-checkpoint.py:178-181 | the URI is scheme, second segment and bucket; then nothing (and the path is empty) when only three segments remain; else `/`, the path, and one `/` exactly when the joined segments ended with `/`; then the file |
| GcsUri.GcsUriTextSegments | model-ml/trainer/.ipynb_checkpoints/flex_sibi-checkpoint.py:173 | a URI written out from a scheme, bucket and file without `/` splits into scheme, empty segment, bucket, the path's segments and the file |
| GcsUri.ParseGcsUriText | model-ml/trainer/.ipynb_checkpoints/flex_sibi-checkpoint.py:160-183 | round trip: every well-formed scheme, bucket, path and file written as a URI parses back to themselves |
| GcsUri.TrailingSlashParsesBack | model-ml/trainer/.ipynb_checkpoints/flex_sibi-checkpoint.py:180-181 | round trip with a trailing `/`: a directory URI ended with `/` parses back to its scheme, bucket and path, whatever the path, with no file |
| GcsUri.DottedBucketFails | model-ml/trainer/.ipynb_checkpoints/flex_sibi-checkpoint.py:174-179 | `scheme//bucket` with a `.` in the bucket raises IndexError, because the bucket is popped as a file |
| GcsUri.DottedDirectoryIsFile | model-ml/trainer/.ipynb_checkpoints/flex_sibi-checkpoint.py:174-177 | a last directory name with a `.` is returned as the file, with an empty path |
| GcsUri.DoubleTrailingSlashStrippedOnce | model-ml/trainer/.ipynb_checkpoints/flex_sibi-checkpoint.py:180-181 | only one trailing `/` is removed: `scheme//b/dir//` has path `dir/` |
| GcsUri.MissingBucketFails | model-ml/trainer/.ipynb_checkpoints/flex_sibi-checkpoint.py:178-179 | a URI with a single `/` has no bucket segment and raises IndexError |
| GcsExport.ExportLocation | model-ml/trainer/.ipynb_checkpoints/flex_sibi-checkpoint.py:195-205 | the parse error is passed on, a scheme other than `gs:` raises ValueError, a location is returned exactly when neither happens, and it starts with `gs://` and ends with the file name |
| GcsExport.ExportFrom | model-ml/trainer/.ipynb_checkpoints/flex_sibi-checkpoint.py:195-205 | a parse error is passed on, a scheme other than `gs:` raises ValueError, and a location is returned exactly when neither happens |
| GcsExport.LocationForm | model-ml/trainer/.ipynb_checkpoints/flex_sibi-checkpoint.py:205 | every returned location starts with `gs://` and ends with the exported file name |
| GcsExport.PipelineExportErrors | model-ml/trainer/.ipynb_checkpoints/flex_sibi-checkpoint.py:195-197 | `pipeline_export_gcs` raises the parse error or ValueError, and returns a location exactly when the directory parses with scheme `gs:` |
| GcsExport.ReportExportErrors | model-ml/trainer/.ipynb_checkpoints/flex_sibi-checkpoint.py:278-280 | `report_export_gcs` raises the parse error or ValueError, and returns a location exactly when the directory parses with scheme `gs:` |
| GcsExport.LocationShape | model-ml/trainer/.ipynb_checkpoints/flex_sibi-checkpoint.py:201-205 | with a bucket and a relative path without trailing `/`, the location is `gs://bucket/name` or `gs://bucket/path/name` |
| GcsExport.LocationParsesBack | model-ml/trainer/.ipynb_checkpoints/flex_sibi-checkpoint.py:201-205 | the location parses back to the directory's bucket and path, with the exported file as its file |
| GcsExport.PipelineLocationParsesBack | model-ml/trainer/.ipynb_checkpoints/flex_sibi-checkpoint.py:195-205 | `model.pkl` lands in the model directory's bucket and path |
| GcsExport.ReportLocationParsesBack | model-ml/trainer/.ipynb_checkpoints/flex_sibi-checkpoint.py:278-290 | `report.txt` lands in the report directory's bucket and path |
| GcsExport.AbsolutePathDropsBucket | model-ml/trainer/.ipynb_checkpoints/flex_sibi-checkpoint.py:201-205 | a path starting with `/` makes `os.path.join` drop the bucket: the location is `gs://` + path + `/` + name |
| GcsExport.EmptyBucketPromotesPath | model-ml/trainer/.ipynb_checkpoints/flex_sibi-checkpoint.py:290 | the returned join expression with an empty bucket drops it, so the path takes its place: `gs://path/name` (unreachable in the program, see below) |
| BqUri.QueryText | model-ml/trainer/.ipynb_checkpoints/flex_sibi-checkpoint.py:60-62 | the query is the fixed template head, `dataset.table`, and the fixed tail |
| BqUri.QueryNamesTable | model-ml/trainer/.ipynb_checkpoints/flex_sibi-checkpoint.py:60-62 | two queries over names without `.` are equal only when they read the same dataset and table |
| BqUri.LoadDataFromBq | model-ml/trainer/.ipynb_checkpoints/flex_sibi-checkpoint.py:54-62 | without the `bq://` prefix it raises; the three names it returns hold no `.`; the query selects everything from `dataset.table` |
| BqUri.LoadSucceedsIff | model-ml/trainer/.ipynb_checkpoints/flex_sibi-checkpoint.py:54-57 | the URI is accepted exactly when it starts with `bq://` and has exactly two `.`; otherwise the unpacking fails with the number of parts found |
| BqUri.FirstPartHasPrefix | model-ml/trainer/.ipynb_checkpoints/flex_sibi-checkpoint.py:57-58 | the first part of the split keeps the whole `bq://` prefix |
| BqUri.Decompose | model-ml/trainer/.ipynb_checkpoints/flex_sibi-checkpoint.py:57-58 | an accepted URI is exactly `bq://` + project + `.` + dataset + `.` + table: `project[5:]` drops the prefix and nothing else |
| BqUri.ComposeThenLoad | model-ml/trainer/.ipynb_checkpoints/flex_sibi-checkpoint.py:54-62 | round trip: a URI built from three names without `.` is read back as those names, with the query over `dataset.table` |
| BqUri.MissingPrefixRefused | model-ml/trainer/.ipynb_checkpoints/flex_sibi-checkpoint.py:54-55 | `project.dataset.table` without `bq://` is refused before the split |
| ExampleReport.CellText | model-ml/trainer/.ipynb_checkpoints/flex_sibi-checkpoint.py:226-229 | a string cell is written between single quotes, so stripping them gives it back; any other value is rendered |
| ExampleReport.AppendCells | model-ml/trainer/.ipynb_checkpoints/flex_sibi-checkpoint.py:225-229 | the inner loop appends every cell, strings quoted, each followed by `, `; for a non-empty row that is the cells joined by `, ` plus one `, ` |
| ExampleReport.PrepareExampleBuffer | model-ml/trainer/.ipynb_checkpoints/flex_sibi-checkpoint.py:222-231 | the nested loop builds the specified buffer; for non-empty data with non-empty rows it is the array literal; for no data it is `]` |
| ExampleReport.TerminatedIsJoin | model-ml/trainer/.ipynb_checkpoints/flex_sibi-checkpoint.py:229-230 | items each followed by a separator are their join plus one separator, which the slice then removes |
| ExampleReport.RowStep | model-ml/trainer/.ipynb_checkpoints/flex_sibi-checkpoint.py:224-230 | trimming a non-empty row's last `, ` and closing it appends the row literal and `, \n` |
| ExampleReport.BufferWellShaped | model-ml/trainer/.ipynb_checkpoints/flex_sibi-checkpoint.py:222-230 | with non-empty rows, after the outer loop the buffer is `[` and every row literal followed by `, \n` |
| ExampleReport.ExampleBufferIsArrayLiteral | model-ml/trainer/.ipynb_checkpoints/flex_sibi-checkpoint.py:222-231 | for non-empty data with non-empty rows the payload is `[` + row literals joined by `, \n` + `]` |
| ExampleReport.SepJoinEnds | model-ml/trainer/.ipynb_checkpoints/flex_sibi-checkpoint.py:230 | a join starts with its first item and ends with its last |
| ExampleReport.ExampleBufferBrackets | model-ml/trainer/.ipynb_checkpoints/flex_sibi-checkpoint.py:222-231 | for non-empty data with non-empty rows the payload opens with `[[` and closes with `]]` |
| ExampleReport.EmptyDataGivesBracket | model-ml/trainer/.ipynb_checkpoints/flex_sibi-checkpoint.py:231 | without rows the slice eats the opening bracket and the payload is `]` |
| ExampleReport.EmptyRowGivesBrackets | model-ml/trainer/.ipynb_checkpoints/flex_sibi-checkpoint.py:222-231 | a single empty row comes out as `]]` |

## Left out

- Reading data from Cloud Storage and BigQuery, the BigQuery and storage clients, the query itself, dask and pandas: I/O and foreign libraries. Only the string checks and the query text of `load_data_from_bq` are modelled; `load_data_from_gcs` does no text processing of its own.
- The uploads of `pipeline_export_gcs` and `report_export_gcs` and the pickling of the pipeline: I/O. Only the returned location and the errors are modelled.
- The storage client and the upload are assumed to succeed. The model therefore returns a location for directories the client refuses, such as one with an empty bucket (`gs:///dir`), where the program raises instead.
- GcsExport.PipelineExportLocation and GcsExport.ReportExportLocation carry no contract of their own; they are ExportLocation for `model.pkl` and `report.txt`, their errors are stated by PipelineExportErrors and ReportExportErrors, and their results by the round-trip lemmas.
- `str()` of the non-string cells of the example array (numpy numbers): it is the parameter `render` of the report functions, because number formatting is not part of this model.
- The rest of `prepare_report` (the report template, `json.dumps` of the parameters and the score): formatting done by library code.
- `clean_missing_numerics`, `data_selection`, `pipeline_builder`, `train_pipeline` and the script entry point: dataframe and scikit-learn work with no text logic of its own, plus argument parsing and logging.
- Python strings are modelled as sequences of characters; byte encoding and Unicode details play no part in this code.
