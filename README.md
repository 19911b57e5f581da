# xls2pdf job store, modelled in Dafny

xls2pdf converts Excel workbooks to PDF. It runs as three AWS Lambda
handlers that share one S3 bucket, plus a single-shot handler:

- The submit API stores a workbook as `{hash}/{filename}`. The hash is the
  SHA-256 fingerprint of the workbook's bytes. Everything that was under
  `{hash}/` before is pruned first.
- The converter is triggered by S3 notifications for `.xlsx` keys. It
  renders the workbook, writes the PDF as `{prefix}/{stem}.pdf`, and only
  then writes a marker object `{prefix}/result` whose body is the PDF's name.
- The result API answers for a hash from which objects exist under
  `{hash}/`: not found (no workbook), in progress (a workbook but no
  marker), or the PDF. It looks for the PDF under its conventional name
  first and then under the name the marker records.
- The single-shot handler (`app.py`) converts a payload directly. It decides
  whether and where to write the PDF from the payload's `target`.

The store is a `map` from bucket to `map<string, seq<byte>>`. It is held by
the class `Store.ObjectStore`, whose methods are the S3 client's calls. Each
handler is a method on that object and is proved equal to a function of the
store's state (`SubmitJob` against `SubmitSpec`, `ConvertObject` against
`Process`, `ProcessPayload` against `PayloadSpec`). The result API only
reads, so it is a function of the state (`LookupResult`). Loops of the
source stay loops: the 1000-key delete batching, the scan for the source
workbook, and the notification handler's walk over its records. The
properties are lemmas about those functions. The end-to-end lemma is
`Lifecycle.JobLifecycle`: submit, then "in progress", then convert, then the
rendered PDF.

Modules, one per file:
- `wrappers.dfy`: `Option`, `Result`, the error kinds.
- `text.dfy`: Python's `strip`, `lower`, `split` on strings.
- `lex.dfy`: the key order of listings.
- `paths.dfy`: `PurePosixPath` name, parent and stem.
- `utf8.dfy`: UTF-8 for the marker.
- `keys.dfy`: the key scheme and the validators.
- `store.dfy`: the store.
- `common.dfy`: the shared helpers of `common.py`.
- `submit.dfy`, `convert.dfy`, `lookup.dfy`, `app.dfy`: the handlers.
- `lifecycle.dfy`: the handlers together.

## Model

| member | source | states |
|---|---|---|
| Keys.JoinKeyShape | src/common.py:110-114 | The joined key ends with the name; it is the bare name exactly when the prefix is empty once its slashes are stripped; otherwise it starts with the stripped prefix and a slash |
| Keys.JoinKeyPlain | src/common.py:110-114 | Under a non-empty prefix without slashes the key is `prefix/name` |
| Keys.JoinKeyIgnoresSlashes | src/common.py:110-114 | Slashes around the prefix make no difference: `join_key("/p/", n) == join_key("p", n)` |
| Keys.BuildObjectKey | src/common.py:106-107 | For a non-empty hash without slashes the source key is `hash/filename` |
| Keys.PrefixForKey | src/common.py:117-119 | A key without a slash has prefix `""`; the prefix is never `.` |
| Keys.PrefixOfJoin | src/common.py:117-119 | For plain parts `p` and `n`, the prefix of `join_key(p, n)` is `p` and its name is `n` |
| Keys.DigestIsPlain | src/common.py:38-39 | A 64-digit lower-case hex digest is a plain path part: not empty, not `.`, no slash |
| Keys.SanitizeFilename | src/common.py:42-50 | `""` exactly when there is no input or no basename; a non-empty result is the input's basename and ends in `.xlsx` in any case; any other basename is an error |
| Keys.SanitizedIsPlain | src/common.py:42-50 | A non-empty sanitized name has no slash, is not `.`, and is its own basename |
| Keys.IsValidSha256 | src/common.py:248-255 | Accepted values have 64 characters; every 64-digit lower-case hex string is accepted; nothing accepted holds a slash or is `.` or `..`; the white space skipped around the digits is the set `int()` skips, not `str.strip()`'s |
| Keys.DigestParses | src/common.py:251-254 | `int(value, 16)` accepts a lower-case hex digest |
| Keys.AcceptedHasNoSlash | src/common.py:251-254 | Whatever `int(value, 16)` accepts holds no slash and is neither `.` nor `..` |
| Keys.AcceptsUpperCase | src/common.py:248-255 | Upper-case hex digits are accepted |
| Keys.AcceptsHexPrefix | src/common.py:248-255 | A `0x` prefix is accepted |
| Keys.AcceptsSign | src/common.py:248-255 | A leading sign is accepted |
| Keys.AcceptsUnderscore | src/common.py:248-255 | A single underscore between digits is accepted |
| Keys.RejectsNonHex | src/common.py:248-255 | A 64-character string whose `0x` prefix is followed by a character that is neither a hex digit nor an underscore is refused |
| Keys.RejectsSeparator | src/common.py:248-255 | U+001C followed by 63 hex digits is refused, since `int()` does not skip it, although `str.strip()` would drop it |
| Keys.ParseS3Uri | src/common.py:90-103 | Fails exactly when the `s3://` prefix is missing or the bucket is empty; otherwise the bucket has no slash and the URI is rebuilt from bucket and key |
| Keys.ParseS3UriRoundTrip | src/common.py:90-103 | `s3://b/k` parses back to `(b, k)` and `s3://b` to `(b, "")` for a non-empty bucket without slashes |
| PosixPath.Name | src/common.py:45 | `PurePosixPath(p).name` holds no slash and is not `.` |
| PosixPath.StemOfName | src/convert_handler.py:78 | The stem is a prefix of the name; when it differs, the name continues with a dot and no further dot |
| PosixPath.PartsOfName | src/common.py:45 | A plain part is its own name and has parent `.` |
| PosixPath.PartsOfPair | src/common.py:117-119 | `a/b` for plain parts has name `b` and parent `a` |
| PosixPath.StemOfXlsxName | src/convert_handler.py:78 | The stem of a name ending in `.xlsx` (any case) is the name without those five characters, except that `.xlsx` itself keeps its whole name |
| Lex.Sorted | src/common.py:170-171 | A listing is strictly ascending and holds exactly the set's keys |
| Lex.FirstIsLeast | src/common.py:170-177 | In an ascending listing the first key with a property is the least key with it |
| Lex.Total | src/common.py:170-171 | Two distinct keys are ordered exactly one way round |
| Utf8.DecodeEncode | src/common.py:200-201 | The marker body written as UTF-8 reads back as the same text |
| Utf8.EncodeDecode | src/common.py:200-201 | Bytes that decode are exactly the encoding of the decoded text |
| Store.ReadObject | src/common.py:192-197 | `get_object` yields the body exactly when the bucket and the key exist |
| Store.ListKeys | src/common.py:128-133 | A listing fails exactly when the bucket is missing; otherwise it is ascending and holds exactly the keys with the prefix |
| Store.Put | src/submit_handler.py:52-62 | A put succeeds exactly when the bucket exists and the location accepts writes; it then changes only that key; the request is logged |
| Store.DeleteBatch | src/common.py:154-163 | `delete_objects` succeeds exactly on 1 to 1000 keys of an existing bucket none of which refuses writes, and then removes exactly those keys and changes nothing else; a failed request removes nothing |
| Store.ObjectStore.GetObject | src/common.py:192-197 | Returns the stored body exactly when the object exists |
| Store.ObjectStore.HeadObject | src/common.py:181-189 | True exactly when the object exists |
| Store.ObjectStore.ListObjects | src/common.py:168-171 | The listing `ListKeys` specifies |
| Store.ObjectStore.PutObject | src/submit_handler.py:52-62 | The new state and the answer are those of `Put` |
| Store.ObjectStore.DeleteObjects | src/common.py:154-163 | The new state and the answer are those of `DeleteBatch` |
| Common.DefaultBucket | src/common.py:31-35 | The configured bucket when it is set and not empty, else an error |
| Common.LoadWorkbookBytes | src/common.py:53-77 | An `s3://` URI is read from the store; a `/path` is read from the source bucket when one is set; anything else is base64; empty bytes are an error; the bytes returned are never empty |
| Common.LoadFromSourceBucket | src/common.py:66-67 | `/path` with a source bucket loads exactly as `s3://bucket/path` |
| Common.LoadWorkbook | src/common.py:53-77 | Its answer is `LoadWorkbookBytes` of the store's state |
| Common.InlineLoadIgnoresStore | src/common.py:69-77 | Inline base64 data loads the same whatever the store holds |
| Common.ReadBinary | src/common.py:192-197 | The body exactly when the object exists, else a read error |
| Common.ReadText | src/common.py:200-201 | Text read is the UTF-8 decoding of the body; a missing object or bytes that are not UTF-8 are errors |
| Common.ObjectExists | src/common.py:181-189 | True exactly when the object exists |
| Common.ChunksPartition | src/common.py:143-151 | Every batch holds 1 to 1000 keys, the batches concatenate back to the keys in order, and their number is the keys' count divided by 1000, rounded up |
| Common.DeleteObjectBatch | src/common.py:143-151 | The loop sends exactly the batches `Chunks` gives, in order, stopping at the first failure |
| Common.SubmitDeleteBatch | src/common.py:154-163 | One `delete_objects` request; its failure is reported as a delete failure |
| Common.SubmitBatch | src/common.py:154-163 | The store changes as `delete_objects` changes it; the error is a delete failure |
| Common.DeleteRunEffect | src/common.py:143-151 | On an existing bucket, batches of 1 to 1000 keys with no refused key all succeed, remove exactly their keys, and send one request per batch |
| Common.DeleteRunRefused | src/common.py:143-163 | A refused key in any batch fails the run with a delete failure |
| Common.DeleteRunBounds | src/common.py:143-151 | Completed or stopped, a run removes only listed keys of its own bucket, never a refused one, and changes no body |
| Common.ChunksAppend | src/common.py:144-149 | Full batches of 1000 are cut off independently of what follows |
| Common.DeleteRunFailed | src/common.py:143-151 | Once a batch fails, later batches change nothing |
| Common.Pruned | src/common.py:129-136 | The bucket without the keys under the prefix; every other key keeps its body |
| Common.PruneEffect | src/common.py:122-140 | A prefix that is empty once stripped of slashes changes nothing; a missing bucket fails the listing and changes nothing; when no key under `prefix/` refuses deletion, every key under it is gone and every other key keeps its body |
| Common.PruneRefused | src/common.py:122-163 | A refused key under `prefix/` fails the prune with a delete failure, leaving the prefix partly pruned: nothing outside it and no refused key is removed |
| Common.PruneRequests | src/common.py:128-136 | Pruning cuts the listed keys, in order, into batches of 1 to 1000 keys, and sends all of them when no key refuses deletion |
| Common.DeletePrefixContents | src/common.py:122-140 | The new state and the answer are those of `Prune` |
| Common.FirstIndex | src/common.py:171-177 | The position of the first key with the property, and no earlier key has it |
| Common.FindOriginalIsLeast | src/common.py:166-178 | Nothing is found exactly when no key under `lookup_key/` has a name ending in `.xlsx`; otherwise the key found is the least such key |
| Common.FindOriginalObject | src/common.py:166-178 | Its answer is `FindOriginal` of the store's state |
| Common.ScanForSource | src/common.py:170-178 | The first source key of the listing under the prefix |
| Common.ScanKeys | src/common.py:171-177 | The first key whose name ends in `.xlsx`, or nothing |
| Submit.Validate | src/submit_handler.py:28-40 | Passes exactly when the filename sanitizes to a non-empty name, the format lower-cases to `xlsx` and the data is not empty; each failure is reported in the handler's order |
| Submit.SubmitJob | src/submit_handler.py:25-77 | The new state and the answer are those of `SubmitSpec`: validate, load, fingerprint, prune `hash/`, put `hash/filename` |
| Submit.AfterSubmitContents | src/submit_handler.py:49-58 | After a submission the only key under `hash/` is `hash/filename` and it holds the workbook; keys outside `hash/` are present and unchanged |
| Submit.AfterSubmitIdempotent | src/submit_handler.py:48-58 | Storing the same workbook under the same name twice leaves the bucket as storing it once |
| Submit.DigestPrefix | src/submit_handler.py:50 | The pruned prefix of a digest is `hash/` |
| Submit.StoreJobOutcome | src/submit_handler.py:49-58 | Pruning `hash/` and then putting `hash/filename` succeeds exactly when the bucket exists and neither the old keys under `hash/` nor the new key refuse writes; on success the bucket is the old one with `hash/` pruned and the source added; a missing bucket changes nothing; a refused delete fails with `hash/` partly pruned; a refused write leaves `hash/` pruned |
| Submit.StoreJobTwice | src/submit_handler.py:49-58 | Storing the same job twice answers the same and leaves the same buckets |
| Submit.SubmitOutcome | src/submit_handler.py:48-77 | A valid, loaded submission succeeds exactly when the bucket exists and neither the old job's keys nor the new key refuse writes, answers 202 with the filename, `submitted` and the hash, and resets the job to its source; a missing bucket changes nothing; a refused delete leaves the prefix partly pruned; a refused write leaves the prefix pruned |
| Submit.SubmitFailureLeavesStore | src/submit_handler.py:26-50 | Every failure other than a refused delete or a refused final write leaves the store unchanged |
| Submit.SubmitTwice | src/submit_handler.py:48-58 | Submitting the same request twice answers the same and leaves the same buckets |
| Convert.JobLayoutSeparate | src/convert_handler.py:78-81 | For a workbook key the PDF's name ends in `.pdf`, and the source, the PDF and the marker are three different keys |
| Convert.LayoutUnderEnds | src/convert_handler.py:78-81 | The PDF key ends as the PDF's name does and the marker key ends in `t`, so the two differ |
| Convert.JoinKeyInjective | src/convert_handler.py:80-81 | Two names under the same prefix give the same key only when they are equal |
| Convert.JobPrefix | src/convert_handler.py:78-79 | For `hash/name` the prefix is `hash` and the stem is the name's stem |
| Convert.JobLayoutOfJob | src/convert_handler.py:78-81 | For `hash/name` the PDF is `hash/{stem}.pdf` and the marker `hash/result` |
| Convert.LayoutUnderPlain | src/convert_handler.py:80-81 | Under a plain prefix the PDF and the marker are `prefix/{pdf}` and `prefix/result` |
| Convert.ConvertObject | src/convert_handler.py:65-114 | The new state and the answer are those of `Process` |
| Convert.ConvertAt | src/convert_handler.py:65-114 | The new state and the answer are those of `ProcessAt` |
| Convert.ProcessOutcome | src/convert_handler.py:65-114 | A missing or empty source or a failed rendering changes nothing; the PDF is written before the marker; a refused PDF stores nothing; a refused marker stores only the PDF; on success the PDF holds the rendering, the marker the UTF-8 name, and nothing else changes |
| Convert.ProcessFailureKeepsMarker | src/convert_handler.py:83-101 | A failed run leaves the marker as it was |
| Convert.ProcessTwice | src/convert_handler.py:65-101 | After a success, running again answers the same and leaves the same buckets |
| Convert.ProcessIdempotent | src/convert_handler.py:65-101 | Processing a workbook key is idempotent |
| Convert.Selected | src/convert_handler.py:44-54 | A record is converted exactly when it comes from S3, names a bucket and a key, and its decoded key ends in `.xlsx` in any case |
| Convert.Selection | src/convert_handler.py:43-56 | The selected objects are at most the records and all are workbooks |
| Convert.ConvertAllReports | src/convert_handler.py:42-62 | A successful run reports one outcome per selected record, in order, naming that record's object as its source |
| Convert.ConvertAllStops | src/convert_handler.py:43-56 | A failure stops the run: later records change neither the answer nor the store |
| Convert.HandleS3Event | src/convert_handler.py:36-62 | The new state and the answer are those of `HandleEvent`; a `Records` value that is not a list is an error |
| Convert.HandleRecord | src/convert_handler.py:44-56 | One turn of the loop: skip the record or convert its object |
| Lookup.CheckIdentifier | src/get_handler.py:76-80 | The stripped identifier is accepted exactly when `is_valid_sha256` accepts it |
| Lookup.ExtractResultIdentifier | src/get_handler.py:65-80 | The query string's `result` comes before the body's; a missing identifier or an unparsable body is an error; an accepted identifier is a valid, slash-free string |
| Lookup.PdfChoice | src/get_handler.py:47-55 | The conventional PDF if it exists; else an error for an empty marker; else the recorded PDF if it exists, else an error |
| Lookup.Answer | src/get_handler.py:31-62 | In progress exactly when the marker is absent; never "not found" |
| Lookup.MarkerAnswer | src/get_handler.py:43-62 | With the marker present the answer is the PDF or an error, never "in progress" |
| Lookup.PdfResponse | src/get_handler.py:57-62 | The bytes at the chosen key, that key's basename, and the URIs of the source and of the PDF |
| Lookup.MarkerAnswerChoosesPdf | src/get_handler.py:43-51 | The conventional PDF is served when it exists, otherwise the PDF the stripped marker names |
| Lookup.MarkerWithoutPdf | src/get_handler.py:48-55 | A marker with no PDF is an error: an empty marker, or a recorded PDF that is missing |
| Lookup.BadIdentifierIgnoresStore | src/get_handler.py:24 | A missing or invalid identifier is refused whatever the store holds |
| Lookup.LookupFindsLeastSource | src/get_handler.py:23-41 | "Not found" exactly when no workbook lies under `id/`; otherwise the answer is about the least such workbook |
| Lookup.LookupJobFindsLeastSource | src/get_handler.py:27-41 | The same, once the identifier and the bucket are known |
| Lookup.LookupMissingBucket | src/get_handler.py:27 | A missing bucket fails the listing |
| App.PdfName | src/app.py:238 | `{stem}.pdf` ends in `.pdf`, is not empty, is not `.` and has no slash |
| App.NormaliseTargetKey | src/app.py:314-322 | The result ends in `.pdf` whenever the PDF's name does; it is the PDF's name, or starts with the stripped key, or the stripped key ends in a slash |
| App.NormaliseTargetKeyCases | src/app.py:314-322 | An empty key gives the PDF's name; a folder gives `folder/{pdf}`; a `.pdf` key in any case is kept; any other key gets `.pdf` appended |
| App.NormaliseTargetKeyIdempotent | src/app.py:314-322 | Normalising a normalised key changes nothing |
| App.NormalIsFixed | src/app.py:314-322 | A key with no leading white space that ends in `.pdf` is kept |
| App.ResolveTarget | src/app.py:292-311 | An `s3://` target takes its bucket from the URI and its key is the URI's key normalised, and an unparsable URI is its parse error; a bare target is a key in the default bucket and fails without one; no target fails without a default bucket; every key ends in `.pdf` |
| App.ResolveBucketOnly | src/app.py:296-299 | `s3://b` puts the PDF at the top of `b` under its own name |
| App.ResolveWithoutTarget | src/app.py:307-311 | Without a target the PDF goes to `converted/{pdf}` in the default bucket |
| App.DefaultKeyIsNormal | src/app.py:310 | `converted/{pdf}` is already normal |
| App.RequestedFormat | src/app.py:221 | A missing format is empty, a string is lower-cased, `null` is an error |
| App.ValidatePayload | src/app.py:217-227 | Passes exactly when the filename and data are non-empty and the format lower-cases to `xlsx`; each failure is reported in the handler's order |
| App.ProcessPayload | src/app.py:214-256 | The new state and the answer are those of `PayloadSpec` |
| App.InvalidPayloadRefused | src/app.py:217-227 | An invalid payload is refused before the store or the converter is used |
| App.PayloadOutcome | src/app.py:229-256 | Without a write the store is untouched and no target is named; with a write the PDF is stored at the resolved location exactly when it accepts it; the PDF is returned exactly when asked for |
| App.WriteDecision | src/app.py:240 | The PDF is written unless it is returned and the target is present and blank; a missing target still writes |
| App.SqsEventByFirstRecord | src/app.py:360-364 | A queue event exactly when `Records` is a non-empty list whose first record comes from SQS |
| Lifecycle.JobNameIsPlain | src/common.py:42-50 | An accepted job name is a plain part and is not `result` |
| Lifecycle.PdfNameIsPlain | src/convert_handler.py:78 | The PDF's name is a plain part ending in `.pdf` and is not `result` |
| Lifecycle.OutputsAreNotSources | src/common.py:175-177 | Neither the PDF nor the marker is taken for a workbook |
| Lifecycle.JobKeyIsSource | src/common.py:175-177 | The job's source key is a workbook under `hash/` |
| Lifecycle.SourceOfJob | src/get_handler.py:44-45 | The result API derives the job's name and PDF name from its source key |
| Lifecycle.DigestQuery | src/get_handler.py:65-80 | A digest in the query string is taken as it is |
| Lifecycle.MarkerReadsBack | src/get_handler.py:43 | The marker the converter writes reads back as the PDF's name |
| Lifecycle.JobFound | src/common.py:166-178 | The result API finds a job's source when it is the only workbook under `hash/` |
| Lifecycle.LookupOfJob | src/get_handler.py:23-31 | The result API's answer on a found job is the answer for its source |
| Lifecycle.LookupInProgress | src/get_handler.py:31-41 | Without a marker the job is in progress |
| Lifecycle.LookupReady | src/get_handler.py:43-62 | With the marker and the PDF the converter writes, the answer is that PDF |
| Lifecycle.SubmittedJob | src/submit_handler.py:48-58 | After a submission only the source is under `hash/` |
| Lifecycle.SubmitThenLookup | src/submit_handler.py:48-58 | After a submission the result API reports the job in progress, whatever was under `hash/` before |
| Lifecycle.ProcessThenLookup | src/convert_handler.py:65-114 | Converting the submitted source succeeds, and the result API then serves the rendered PDF |
| Lifecycle.ProcessJob | src/convert_handler.py:78-101 | Converting `hash/name` writes `hash/{stem}.pdf` and `hash/result` and nothing else |
| Lifecycle.ConvertedJob | src/convert_handler.py:83-101 | After the conversion the source is still the only workbook under `hash/` |
| Lifecycle.JobLifecycle | src/submit_handler.py:48-77 | Submit, then in progress, then convert, then the rendered PDF under its own name with both URIs |
| Lifecycle.Q1Lifecycle | src/get_handler.py:23-62 | `Q1.xlsx` is submitted, reported in progress, converted, and served as `Q1.pdf` |

## Left out

- The SHA-256 computation is a parameter `fingerprint` returning a 64-digit lower-case hex string; the hash is not computed.
- The Adobe PDF Services converter, its client set-up and the `_get_converter` singletons are a parameter `render` that may fail.
- SSM parameters, secret resolution and logging are not modelled.
- `base64.b64decode`, `json.loads` and `unquote_plus` are parameters or already-decoded request fields. Response encoding (`json.dumps`, base64 of the PDF) is not modelled: answers are records.
- Temporary workbook files are not modelled. Their only effect, refusing empty content, is kept.
- S3 pagination is not modelled: a listing returns all matching keys, sorted. Concurrency and eventual consistency are not modelled either: the store is sequential.
- `head_object` errors other than 404 are not modelled: `HeadObject` answers only present or absent. A missing bucket, a delete batch that is empty or over 1000 keys, or a refused location (for a put, the key; for a delete, any key of the batch) is the only way a store call fails. A refused delete batch removes none of its keys.
- Lower-casing is ASCII-only. `int(value, 16)` is modelled for ASCII digits, with the white space it skips: ASCII space and tab to carriage return, and the non-ASCII characters `str.isspace` accepts. Non-ASCII Unicode digits, which `int()` also takes, are not modelled.
- The transports of the single-shot handler are not modelled: `lambda_handler`, `_handle_sqs_records`, `_handle_api_event`, `_extract_api_payload` and `_is_api_event` in `src/app.py`, and the check that the returned PDF is not empty.
- App.RequestedFormat: a JSON `null` format is an error of its own kind. The handler fails there with a Python attribute error rather than a conversion error.
- App.ValidatePayload: non-string JSON values for `filename`, `data` or `target` are not modelled. Fields are strings, missing, or `null`.
- Lookup.ExtractResultIdentifier: a non-string JSON `result` is not modelled; the handler crashes on a truthy one at `strip()` with a Python attribute error and reports a falsy one as missing. The identifier is a string or absent.
- Submit.Validate: non-string JSON values for `filename` or `data` are not modelled; the handler crashes on them with a Python type or attribute error. Fields are strings or absent (missing and `null` read alike).
- Common.PruneRequests: after a refused batch the later batches are not sent, and the request log of such a prune is not stated; its effect on the bucket is stated by Common.PruneRefused.
- Submit.SubmitFailureLeavesStore: a refused delete, like a refused final write, leaves the store changed (earlier batches are already gone); Submit.SubmitOutcome states what is left.
- `extract_api_payload` in `src/common.py` is summarised as the request body the result API sees (`Lookup.Body`).
