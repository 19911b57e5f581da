/** The result API of `src/get_handler.py`. It never writes: the state of a
    job is read off which objects exist under `{id}/`. No workbook means
    the job is unknown, a workbook without the `result` marker means the
    conversion is in progress, and a marker means the PDF is ready. */
module Lookup {
  import opened Wrappers
  import opened Text
  import opened PosixPath
  import opened Keys
  import opened Store
  import opened Common

  /** The request body as `extract_api_payload(event, optional=True)` sees
      it: no body at all, a body that is not a JSON object, or an object with
      or without a `result` field. */
  datatype Body = NoBody | Unparsable | Parsed(result: Option<string>)

  /** The three answers. */
  datatype Response =
    | NotFound                                                              // 404 {"error": "Result not found"}
    | InProgress(filename: string, result: string)                         // 200 {"status": "inprogress"}
    | Ready(pdf: seq<byte>, filename: string, sourceUri: string, targetUri: string)  // 200, the PDF itself

  function StatusCode(r: Response): int {
    if r.NotFound? then 404 else 200
  }

  // ---- the identifier ----

  /** `lookup.strip()` must pass `is_valid_sha256`. */
  function CheckIdentifier(lookup: string): (r: Result<string>)
    ensures r.Ok? <==> IsValidSha256(Strip(lookup))
    ensures r.Ok? ==> r.value == Strip(lookup) && |r.value| == 64 && '/' !in r.value
    ensures r.Err? ==> r.error == ResultIdInvalid
  {
    var id := Strip(lookup);
    if IsValidSha256(id) then Ok(id) else Err(ResultIdInvalid)
  }

  /** `_extract_result_identifier(event)`: the query string's `result` when
      it is there and not empty; otherwise the body's; either way stripped
      and validated. */
  function ExtractResultIdentifier(query: Option<string>, body: Body): (r: Result<string>)
    ensures query.Some? && query.value != "" ==> r == CheckIdentifier(query.value)
    ensures (query.None? || query.value == "") && body.Unparsable? ==> r == Err(RequestBodyInvalid)
    ensures (query.None? || query.value == "") && (body.NoBody? || (body.Parsed? && (body.result.None? || body.result.value == ""))) ==>
      r == Err(ResultIdMissing)
    ensures r.Ok? ==> IsValidSha256(r.value) && '/' !in r.value && r.value != ""
  {
    if query.Some? && query.value != "" then CheckIdentifier(query.value)
    else match body
      case Unparsable => Err(RequestBodyInvalid)
      case NoBody => Err(ResultIdMissing)
      case Parsed(result) =>
        if result.None? || result.value == "" then Err(ResultIdMissing) else CheckIdentifier(result.value)
  }

  // ---- the answer ----

  /** The source workbook a job was found by: its key, its name, and the
      name its PDF conventionally has. */
  datatype Source = Source(key: string, name: string, expectedPdf: string)

  /** `original_name` and `expected_pdf_name` for a source key. */
  function SourceOf(original: string): Source {
    var name := Name(original);
    Source(original, name, Stem(name) + ".pdf")
  }

  /** The PDF the marker points at: the conventional name if that object
      exists, else the name recorded in the marker. */
  function PdfChoice(w: World, bucket: string, id: string, expected: string, recorded: string): (r: Result<string>)
    ensures r.Ok? ==> Exists(w, bucket, r.value)
    ensures Exists(w, bucket, JoinKey(id, expected)) ==> r == Ok(JoinKey(id, expected))
    ensures !Exists(w, bucket, JoinKey(id, expected)) && recorded == "" ==> r == Err(MarkerEmpty)
    ensures !Exists(w, bucket, JoinKey(id, expected)) && recorded != "" ==>
      r == (if Exists(w, bucket, JoinKey(id, recorded)) then Ok(JoinKey(id, recorded)) else Err(RecordedPdfMissing))
  {
    var conventional := JoinKey(id, expected);
    if Exists(w, bucket, conventional) then Ok(conventional)
    else if recorded == "" then Err(MarkerEmpty)
    else
      var recordedKey := JoinKey(id, recorded);
      if Exists(w, bucket, recordedKey) then Ok(recordedKey) else Err(RecordedPdfMissing)
  }

  /** What the handler answers once it has found the source of job `id`:
      "in progress" while there is no marker. */
  function Answer(w: World, bucket: string, id: string, src: Source): (r: Result<Response>)
    ensures !Exists(w, bucket, JoinKey(id, ResultObjectName)) <==> r == Ok(InProgress(src.name, id))
    ensures r != Ok(NotFound)
  {
    if !Exists(w, bucket, JoinKey(id, ResultObjectName)) then Ok(InProgress(src.name, id))
    else MarkerAnswer(w, bucket, id, src)
  }

  /** The answer once the marker exists: the PDF, or an error. */
  function MarkerAnswer(w: World, bucket: string, id: string, src: Source): (r: Result<Response>)
    ensures r.Ok? ==> r.value.Ready?
  {
    var markerKey := JoinKey(id, ResultObjectName);
    match ReadText(w, bucket, markerKey)
    case Err(e) => Err(e)
    case Ok(text) =>
      match PdfChoice(w, bucket, id, src.expectedPdf, Strip(text))
      case Err(e) => Err(e)
      case Ok(pdfKey) => PdfResponse(w, bucket, src.key, pdfKey)
  }

  /** `pdf_response(...)` for the chosen key: its bytes, its name, and the
      URIs of the source and of the PDF. */
  function PdfResponse(w: World, bucket: string, original: string, pdfKey: string): (r: Result<Response>)
    ensures r.Ok? ==> r.value.Ready?
    ensures Exists(w, bucket, pdfKey) ==>
      r == Ok(Ready(w.buckets[bucket][pdfKey], Name(pdfKey), S3Uri(bucket, original), S3Uri(bucket, pdfKey)))
  {
    match ReadBinary(w, bucket, pdfKey)
    case Err(e) => Err(e)
    case Ok(pdf) => Ok(Ready(pdf, Name(pdfKey), S3Uri(bucket, original), S3Uri(bucket, pdfKey)))
  }

  /** `lambda_handler(event)` over the store's contents. */
  function LookupResult(w: World, query: Option<string>, body: Body, configured: Option<string>): Result<Response> {
    match ExtractResultIdentifier(query, body)
    case Err(e) => Err(e)
    case Ok(id) =>
      match DefaultBucket(configured)
      case Err(e) => Err(e)
      case Ok(bucket) =>
        LookupJob(w, bucket, id)
  }

  /** The answer for a valid identifier and the default bucket: find the
      source, then read the job's state. */
  function LookupJob(w: World, bucket: string, id: string): Result<Response> {
    match FindOriginal(w, bucket, id)
    case Err(e) => Err(e)
    case Ok(None) => Ok(NotFound)
    case Ok(Some(original)) => Answer(w, bucket, id, SourceOf(original))
  }

  // ---- what the answer means ----

  /** With the marker present, the answer is the PDF at the conventional
      key if that exists, and otherwise the PDF the stripped marker names. */
  lemma MarkerAnswerChoosesPdf(w: World, bucket: string, id: string, src: Source, text: string)
    requires ReadText(w, bucket, JoinKey(id, ResultObjectName)) == Ok(text)
    ensures var conventional := JoinKey(id, src.expectedPdf);
      var recorded := JoinKey(id, Strip(text));
      (Exists(w, bucket, conventional) ==>
         MarkerAnswer(w, bucket, id, src)
         == Ok(Ready(w.buckets[bucket][conventional], Name(conventional), S3Uri(bucket, src.key), S3Uri(bucket, conventional)))) &&
      (!Exists(w, bucket, conventional) && Strip(text) != "" && Exists(w, bucket, recorded) ==>
         MarkerAnswer(w, bucket, id, src)
         == Ok(Ready(w.buckets[bucket][recorded], Name(recorded), S3Uri(bucket, src.key), S3Uri(bucket, recorded))))
  {
  }

  /** A job whose marker exists but whose PDF cannot be found is an error,
      whether the marker is empty or names a missing object. */
  lemma MarkerWithoutPdf(w: World, bucket: string, id: string, src: Source, text: string)
    requires ReadText(w, bucket, JoinKey(id, ResultObjectName)) == Ok(text)
    requires !Exists(w, bucket, JoinKey(id, src.expectedPdf))
    requires Strip(text) == "" || !Exists(w, bucket, JoinKey(id, Strip(text)))
    ensures MarkerAnswer(w, bucket, id, src) == Err(if Strip(text) == "" then MarkerEmpty else RecordedPdfMissing)
  {
  }

  /** An identifier that is missing or invalid is refused before the store
      is consulted: the answer does not depend on the store. */
  lemma BadIdentifierIgnoresStore(w: World, w': World, query: Option<string>, body: Body, configured: Option<string>)
    requires ExtractResultIdentifier(query, body).Err?
    ensures LookupResult(w, query, body, configured) == LookupResult(w', query, body, configured)
                                                    == Err(ExtractResultIdentifier(query, body).error)
  {
  }

  /** With a valid identifier and an existing bucket: the answer is "not
      found" exactly when no workbook lies under `{id}/`; otherwise it is
      about the least such workbook. */
  lemma LookupFindsLeastSource(w: World, query: Option<string>, body: Body, configured: Option<string>, id: string, bucket: string)
    requires ExtractResultIdentifier(query, body) == Ok(id)
    requires DefaultBucket(configured) == Ok(bucket) && bucket in w.buckets
    ensures var m := w.buckets[bucket];
      var r := LookupResult(w, query, body, configured);
      (r == Ok(NotFound) <==> forall k :: k in m && StartsWith(k, id + "/") ==> !IsSourceKey(k)) &&
      (r != Ok(NotFound) ==>
        exists original ::
          original in m && StartsWith(original, id + "/") && IsSourceKey(original) &&
          (forall k :: k in m && StartsWith(k, id + "/") && IsSourceKey(k) ==> !Lex.Less(k, original)) &&
          r == Answer(w, bucket, id, SourceOf(original)))
  {
    assert LookupResult(w, query, body, configured) == LookupJob(w, bucket, id);
    LookupJobFindsLeastSource(w, bucket, id);
  }

  lemma LookupJobFindsLeastSource(w: World, bucket: string, id: string)
    requires id != "" && '/' !in id && bucket in w.buckets
    ensures var m := w.buckets[bucket];
      var r := LookupJob(w, bucket, id);
      (r == Ok(NotFound) <==> forall k :: k in m && StartsWith(k, id + "/") ==> !IsSourceKey(k)) &&
      (r != Ok(NotFound) ==>
        var original := FindOriginal(w, bucket, id).value.value;
        original in m && StartsWith(original, id + "/") && IsSourceKey(original) &&
        (forall k :: k in m && StartsWith(k, id + "/") && IsSourceKey(k) ==> !Lex.Less(k, original)) &&
        r == Answer(w, bucket, id, SourceOf(original)))
  {
    JoinKeyPlain(id, "");
    assert id + "/" + "" == id + "/";
    FindOriginalIsLeast(w, bucket, id);
  }

  /** A missing bucket is a failed listing. */
  lemma LookupMissingBucket(w: World, query: Option<string>, body: Body, configured: Option<string>)
    requires ExtractResultIdentifier(query, body).Ok?
    requires DefaultBucket(configured).Ok? && configured.value !in w.buckets
    ensures LookupResult(w, query, body, configured) == Err(StoreFailure)
  {
  }
}
