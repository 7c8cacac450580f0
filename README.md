# flattener: Cloud Storage paths and Parquet locations

This project models the pure core of the flattener service. The service
exports a BigQuery table to Parquet files in a Cloud Storage bucket, for a
later flattening step to read back. The code of that step is not in the
repository. The core is the string
handling that decides where those files go:

- `parse_gcs_path` (`core/gcp_client.py`). It removes every `gs://`, strips
  whitespace from both ends, and splits once at the first `/` into a bucket
  name and a path prefix.
- The two locations that `export_table_to_parquet` builds. The first is the
  table directory `<bucket>/<table>`. Its path prefix selects the old files
  to delete: every object whose name starts with that prefix, which can
  reach beyond the directory (see "## Findings"). The second is the export
  target `gs://<bucket>/<table>/<table>_part*.parquet`.
- `build_parquet_file_location` and `flatten_table` (`core/flatten.py`).
  The first builds the glob `<bucket>/<table>/<table>*.parquet` that a
  flattening step would read. The second computes it, discards it, prints an empty line and
  returns nothing.

The model is made of functions and lemmas only, because the modelled code
keeps no state and has no loops.

- Module `PyStr` (`py_str.dfy`) defines the three Python string methods the
  parser uses: `str.replace`, `str.strip()` and `str.split(sep, 1)`, over
  code-point strings. `replace` is the search-and-resume loop CPython runs,
  and it is proved equal to a character-by-character scan. `strip` drops
  exactly the characters for which `str.isspace` holds.
- Module `GcpClient` (`gcp_client.dfy`) holds `parse_gcs_path`, the table
  directory and the export target.
- Module `Flatten` (`flatten.dfy`) holds the Parquet location and
  `flatten_table`.
- Module `ExportLayout` (`export_layout.dfy`) proves how the two files fit
  together. The export target and the flattening glob parse into the bucket
  of the directory that the export clears, under that directory's prefix.
  The glob matches every shard file the export writes there.

The comment above the replacement at `core/gcp_client.py:17` speaks of the
"preceding" `gs://`, but the code removes every occurrence. The model
follows the code (`GcpClient.ReplaceSchemeTwice`, `GcpClient.ParseEveryScheme`).
The docstring at `core/gcp_client.py:60` describes the destination as
`'bucket-name/path/'`. So the lemmas that relate the export locations allow
a `/` inside the destination bucket.

## Model

| member | source | states |
|---|---|---|
| PyStr.Find | core/gcp_client.py:20 | The search used by `split` and `replace`. It finds nothing exactly when the separator does not occur. Otherwise it returns an occurrence with no occurrence before it. |
| PyStr.FindIs | core/gcp_client.py:20 | Converse of `Find`: the leftmost occurrence of the pattern is what the search returns. |
| PyStr.Replace | core/gcp_client.py:18 | Text in which the pattern does not occur is returned unchanged. |
| PyStr.ReplaceMatchesScan | core/gcp_client.py:18 | On every input, the search-and-resume replacement equals a left-to-right character scan. The scan replaces each non-overlapping occurrence and copies every other character. |
| PyStr.ReplaceFromCopy | core/gcp_client.py:18 | A stretch of the input in which no occurrence starts is copied verbatim, and the replacement carries on after it. |
| PyStr.ReplaceOne | core/gcp_client.py:18 | When no other occurrence starts before an occurrence or after its end, that occurrence is replaced and the text before and after it is kept as it is. |
| PyStr.ReplaceTwo | core/gcp_client.py:18 | When the pattern occurs at the front and at one later place, both occurrences are replaced and the text between and after them is kept. |
| PyStr.Strip | core/gcp_client.py:20 | The stripped text is no longer than the input and has whitespace at neither end. |
| PyStr.StripBounds | core/gcp_client.py:20 | The stripped text is one contiguous slice of the input, and every character dropped on either side is whitespace. |
| PyStr.StripNoEdge | core/gcp_client.py:20 | Text with no whitespace at its ends is left unchanged. |
| PyStr.StripAround | core/gcp_client.py:20 | Whitespace around a trimmed text is exactly what is removed. Whitespace inside the text is kept. |
| PyStr.StripIdempotent | core/gcp_client.py:20 | Stripping twice gives the same result as stripping once. |
| PyStr.SplitOnce | core/gcp_client.py:20-22 | One or two parts. Two parts exactly when the separator occurs, and then the first part, the separator and the second part rejoin to the input. One part means the input itself. The first part never contains the separator. |
| PyStr.SplitOnceLeftmost | core/gcp_client.py:20-22 | When `split` cuts, the first part ends where the leftmost occurrence of the separator starts. |
| PyStr.SplitOnceExtend | core/gcp_client.py:20-22 | Appending text to a string that already contains the separator leaves the first part unchanged. The appended text lands at the end of the second part. |
| GcpClient.ParseGcsPath | core/gcp_client.py:7-24 | The bucket never contains `/`. If the cleaned text (every `gs://` removed, then stripped) has no `/`, the result is that text and `""`. Otherwise bucket, `/` and prefix rejoin to the cleaned text. |
| GcpClient.ParseGcsPathTrimmed | core/gcp_client.py:18-22 | The bucket never starts with whitespace. The last component never ends with whitespace: the prefix when there was a `/`, the bucket otherwise. |
| GcpClient.ParseEmpty | core/gcp_client.py:20-24 | The parser is total, and the empty path gives an empty bucket and an empty prefix. |
| GcpClient.ParseCleaned | core/gcp_client.py:20-22 | If the cleaned text is some bucket without `/`, then `/`, then a prefix, those are the two parts returned. This is the uniqueness of the cut. |
| GcpClient.CutUnique | core/gcp_client.py:20-22 | Two ways of writing one text as a slash-free part, `/` and a rest are the same. |
| GcpClient.ReplaceSchemeOnce | core/gcp_client.py:18 | After colon-free text, one `gs://` is removed. The text after it is copied unchanged, and only the `gs://` disappears. |
| GcpClient.ReplaceSchemeTwice | core/gcp_client.py:17-18 | A second `gs://` in the middle of the path is removed as well as the leading one. |
| GcpClient.ReplaceNoRescan | core/gcp_client.py:18 | The removal is a single pass. In `g` + `gs://` + `s://x`, removing the inner `gs://` brings together a new `gs://`, and that one stays in the output. |
| GcpClient.ParseEveryScheme | core/gcp_client.py:17-22 | `gs://<bucket>/<m>gs://<t>` parses to the bucket and the prefix `<m><t>`. For example, `gs://b/x/gs://y` gives `("b", "x/y")`. |
| GcpClient.ParseStripsEnds | core/gcp_client.py:18-22 | Whitespace, `gs://`, bucket, `/`, prefix and whitespace parse to exactly that bucket and prefix. Only the outer whitespace goes, and whitespace inside the bucket or the prefix is kept. |
| GcpClient.TableDirectory | core/gcp_client.py:63 | The directory is the bucket, then `/` right after the bucket, then the table name, and nothing else. |
| GcpClient.ParseTableDirectory | core/gcp_client.py:63-64 | Round trip: for a bucket without `/`, a directory with no `gs://` and no whitespace at its ends parses back to exactly that bucket and table. This is the directory handed to the deletion. |
| GcpClient.ClearedPrefix | core/gcp_client.py:29-38 | The path prefix that `delete_from_gcs_path` lists and deletes when `export_table_to_parquet` clears the directory built at line 63. |
| GcpClient.Listed | core/gcp_client.py:38 | The prefix filter of `list_blobs(prefix=...)`: an object is listed when its name starts with the prefix. |
| GcpClient.DirectoryPrefix | core/gcp_client.py:62-63 | The corrected prefix: the cleared prefix followed by `/`, so that only the table's own directory is listed. |
| GcpClient.ClearedPrefixIsTable | core/gcp_client.py:29-38 | For a destination bucket without `/`, the prefix whose objects are deleted when a table is cleared is the table name itself, without a trailing `/`. |
| GcpClient.ClearedPrefixInFolder | core/gcp_client.py:29-38 | For a destination written `bucket/folder`, the cleared prefix is `folder/<table>`, again without a trailing `/`. |
| GcpClient.ClearingOvershoots | core/gcp_client.py:38 | As written, for a destination bucket without `/`, clearing table `t` lists, and so deletes, every object `<other>/...` of a table `other` whose name starts with `t`, such as `t2`. |
| GcpClient.ClearingOvershootsInFolder | core/gcp_client.py:38 | The same overshoot for a destination `bucket/folder`: clearing `t` deletes every object `folder/<other>/...` of a table `other` whose name starts with `t`. |
| GcpClient.DirectoryPrefixExact | core/gcp_client.py:62-63 | For a destination bucket without `/`, the corrected prefix lists an object `<other>/...` exactly when `other` is the table being cleared. |
| GcpClient.DirectoryPrefixExactInFolder | core/gcp_client.py:62-63 | For a destination `bucket/folder`, the corrected prefix lists an object `folder/<other>/...` exactly when `other` is the table being cleared. |
| GcpClient.DestinationUri | core/gcp_client.py:67 | The export target starts with `gs://`, continues with the table directory and `/`, then the table name, and ends with `_part*.parquet`. Its length is the sum of those parts. |
| Flatten.BuildParquetFileLocation | core/flatten.py:2-4 | Its length is the bucket length plus twice the table-name length plus 11. It starts with `<bucket>/<table>/`, the table name follows, and it ends with `*.parquet`. |
| Flatten.LocationInjective | core/flatten.py:3 | Within one bucket, two table names give the same location exactly when they are equal. |
| Flatten.FlattenTable | core/flatten.py:6-9 | Whatever the arguments, the only output is one newline on standard output. The computed location is unused and nothing else is returned. |
| ExportLayout.ParseExtendsDirectory | core/gcp_client.py:63-67 | A path whose cleaned text continues the table directory parses into the directory's bucket, with the continuation appended to the directory's prefix. |
| ExportLayout.ParseDestinationUri | core/gcp_client.py:63-67 | The export target parses into the bucket of the cleared directory, with `/<table>_part*.parquet` appended to its prefix. The shards go where the old files were deleted. |
| ExportLayout.ParseFlattenLocation | core/flatten.py:3 | The flattening glob parses into the same bucket as the cleared directory, with `/<table>*.parquet` appended to the same prefix. |
| ExportLayout.ExportTargetTemplate | core/gcp_client.py:67 | The export target is `gs://` followed by the shard name whose label is still `*`, so the shard names are the target with its `*` filled in and its scheme removed. |
| ExportLayout.FlattenGlobMatchesShards | core/flatten.py:3 | Every shard `<bucket>/<table>/<table>_part<n>.parquet` that the export writes matches the flattening glob of that table. |
| ExportLayout.FlattenGlobStaysInDirectory | core/flatten.py:3 | Every name the flattening glob matches starts with `<bucket>/<table>/<table>`, so it lies in that table's directory. |

## Left out

- `core/endpoints.py`: Flask routing, request bodies and HTTP status codes around calls to external services. Several of those calls (`publish_pubsub_message`, `table_to_parquet`, `parquet_to_table`, `flatten_table_file`) are not part of this model.
- `delete_from_gcs_path` (`core/gcp_client.py:26-50`): Cloud Storage calls, printing, and swallowed exceptions are I/O. The path parse it starts with and the prefix rule of the listing are modelled (`GcpClient.ParseTableDirectory`, `GcpClient.Listed`).
- `export_table_to_parquet` beyond its two locations (`core/gcp_client.py:69-91`): the BigQuery extract job, its configuration and its printed messages are calls into client libraries.
- `core/utils.py` (DuckDB connections, settings, file cleanup, logging) and `core/constants.py` (configuration values that no modelled code reads) have no behaviour to verify.
- The schema-flattening engine is not part of this model: its code is not in the repository.
- Flatten.FlattenTable: `print()` is modelled as the text written to standard output, which the function returns. The function itself returns `None`.
- PyStr.Replace: an empty pattern is excluded. Python then inserts the replacement between all characters, and the parser only ever passes `gs://`.
- PyStr.SplitOnce: an empty separator is excluded. Python then raises `ValueError`, and the parser only ever passes `/`.
- PyStr: strings are sequences of Dafny characters, which are Unicode scalar values. A Python `str` can also hold lone surrogates (U+D800 to U+DFFF), and those are not modelled.
- PyStr.IsWhitespace: the fixed list of code points for which `str.isspace` is true. Unicode normalisation and encodings play no part.
- ExportLayout.StarMatch: the glob semantics of the reader of the flattening location. That reader is not in the repository. Only `*`, matching any run of characters without `/`, is modelled. `?`, `[...]` and `**` are not.
- ExportLayout.FlattenGlobMatchesShards: names are compared without the `gs://` scheme. The export target carries it and the flattening glob does not, so the reader is assumed to resolve the scheme-less `bucket/object` glob on Cloud Storage.
- ExportLayout.FlattenGlobMatchesShards: the shard label that BigQuery puts in place of `*` is any text without `/`. Its actual format (a zero-padded number) is not modelled.
- ExportLayout.FlattenGlobMatchesShards: requires the bucket and the table name to contain no `*`. Cloud Storage bucket names and BigQuery table names cannot hold `*`, and BigQuery accepts a single wildcard in the export URI.
- ExportLayout.FlattenGlobStaysInDirectory: requires the bucket and the table name to contain no `*`, because a `*` in them, for example in the folder part of the destination, would act as a further wildcard. Cloud Storage bucket names and BigQuery table names cannot hold `*`.
- ExportLayout.ParseDestinationUri: requires the bucket and the table name to contain no `:`. This is a simple sufficient condition for `gs://` occurring nowhere in the assembled path, including across the joins between the parts. It also excludes inputs for which the result still holds, such as a bucket written `gs://b`.
- ExportLayout.ParseFlattenLocation: requires the bucket and the table name to contain no `:`. This is a simple sufficient condition for `gs://` occurring nowhere in the assembled path, including across the joins between the parts. It also excludes inputs for which the result still holds, such as a bucket written `gs://b`.
- ExportLayout.ParseExtendsDirectory: requires the bucket and the table name to contain no `:`. This is a simple sufficient condition for `gs://` occurring nowhere in the assembled path, including across the joins between the parts. For a bucket written `gs://b` the result fails: the cleaned text then starts with `gs://`, so the parsed bucket is `gs:`.
- GcpClient.ParseEveryScheme: requires the bucket, `m` and `t` to contain no `:`. This is a simple sufficient condition for `gs://` occurring only where the lemma places it, including across the joins between the parts.
- GcpClient.ParseStripsEnds: requires the bucket and the prefix to contain no `:`. This is a simple sufficient condition for `gs://` occurring only where the lemma places it, including across the joins between the parts.
- GcpClient.Listed: assumes the documented prefix filter of Cloud Storage listings with no delimiter, so a listing crosses `/`. The client library itself is not part of this model.
- GcpClient.ClearingOvershoots: stated for a destination bucket without `/`. The `bucket/folder` form is GcpClient.ClearingOvershootsInFolder. `folder` may itself contain `/`, so the two forms together cover every destination.
- GcpClient.DirectoryPrefixExact: stated for a destination bucket without `/`. The `bucket/folder` form is GcpClient.DirectoryPrefixExactInFolder. `folder` may itself contain `/`, so the two forms together cover every destination.
- GcpClient.ReplaceSchemeTwice: requires `m` and `t` without `:`. The general case of two occurrences is PyStr.ReplaceTwo.
- GcpClient.ReplaceNoRescan: stated for one family of inputs. The general single-pass property is PyStr.ReplaceMatchesScan together with PyStr.ReplaceFromCopy.

## Findings

| source | as written | input that shows it | evidently intended | confidence | as-written member | corrected member |
|---|---|---|---|---|---|---|
| core/gcp_client.py:38 | Clearing a table lists the objects whose names start with `<table>`, with no `/` after it. The same holds under a folder (GcpClient.ClearingOvershootsInFolder). | Clearing table `t` in bucket `b` also deletes `t2/t2_part0.parquet`, which belongs to table `t2`. | Only the table's own directory, prefix `<table>/`, is cleared (GcpClient.DirectoryPrefix, and GcpClient.DirectoryPrefixExactInFolder under a folder). | medium, not executed | GcpClient.ClearingOvershoots | GcpClient.DirectoryPrefixExact |
