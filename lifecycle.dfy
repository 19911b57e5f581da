/** A job from start to end: a workbook is submitted, the result API reports
    it in progress, the converter processes the stored object, and the result
    API then hands out the PDF. The three handlers only share the store, so
    this is where their key schemes have to agree: the submit API's
    `{hash}/{filename}`, the converter's `{hash}/{stem}.pdf` and
    `{hash}/result`, and the result API's search under `{hash}/`. */
module Lifecycle {
  import opened Wrappers
  import opened Text
  import opened PosixPath
  import opened Keys
  import opened Store
  import opened Common
  import opened Submit
  import opened Convert
  import opened Lookup
  import Utf8

  /** A name that the submit API accepts: a single path component ending in
      `.xlsx`. */
  predicate IsJobName(filename: string) {
    '/' !in filename && HasXlsxSuffix(filename)
  }

  /** An identifier that is a single path component, as a digest is. */
  predicate IsJobId(hash: string) {
    hash != "" && hash != "." && '/' !in hash
  }

  /** The PDF the converter writes for a job name. */
  function PdfNameOf(filename: string): string {
    StemOfName(filename) + ".pdf"
  }

  // ---- names ----

  /** A job name is a plain path component and is not the marker's name. */
  lemma JobNameIsPlain(filename: string)
    requires IsJobName(filename)
    ensures filename != "" && filename != "." && filename != ResultObjectName
  {
    assert |Lower(filename)| == |filename| >= 5;
    assert LowerChar(filename[|filename| - 1]) == 'x';
    assert filename[|filename| - 1] != ResultObjectName[|ResultObjectName| - 1];
  }

  /** The PDF's name is a plain path component that ends in `.pdf`. */
  lemma PdfNameIsPlain(filename: string)
    requires IsJobName(filename)
    ensures var n := PdfNameOf(filename);
      n != "" && n != "." && '/' !in n && EndsWith(n, ".pdf") && n != ResultObjectName
  {
    var stem := StemOfName(filename);
    var n := stem + ".pdf";
    assert '/' !in stem by {
      assert stem == filename[..|stem|];
    }
    assert n[|n| - 4..] == ".pdf";
  }

  /** Neither the PDF nor the marker looks like a workbook. */
  lemma OutputsAreNotSources(hash: string, filename: string)
    requires hash != "" && hash != "." && '/' !in hash
    requires IsJobName(filename)
    ensures !IsSourceKey(hash + "/" + PdfNameOf(filename))
    ensures !IsSourceKey(hash + "/" + ResultObjectName)
  {
    PdfNameIsPlain(filename);
    PdfIsNotSource(hash, PdfNameOf(filename));
    MarkerIsNotSource(hash);
  }

  lemma PdfIsNotSource(hash: string, n: string)
    requires hash != "" && hash != "." && '/' !in hash
    requires n != "" && n != "." && '/' !in n && EndsWith(n, ".pdf")
    ensures !IsSourceKey(hash + "/" + n)
  {
    PartsOfPair(hash, n);
    assert Lower(n)[|n| - 1] == LowerChar(n[|n| - 1]) == 'f';
  }

  lemma MarkerIsNotSource(hash: string)
    requires hash != "" && hash != "." && '/' !in hash
    ensures !IsSourceKey(hash + "/" + ResultObjectName)
  {
    PartsOfPair(hash, ResultObjectName);
    assert Lower(ResultObjectName)[|ResultObjectName| - 1] == 't';
  }

  /** The source key of a job is a workbook under `{hash}/`. */
  lemma JobKeyIsSource(hash: string, filename: string)
    requires hash != "" && hash != "." && '/' !in hash
    requires IsJobName(filename)
    ensures var key := hash + "/" + filename;
      IsSourceKey(key) && StartsWith(key, hash + "/")
  {
    var key := hash + "/" + filename;
    JobNameIsPlain(filename);
    PartsOfPair(hash, filename);
    assert key[..|hash + "/"|] == hash + "/";
  }

  /** What the result API derives from a job's source key. */
  lemma SourceOfJob(hash: string, filename: string)
    requires hash != "" && hash != "." && '/' !in hash
    requires IsJobName(filename)
    ensures SourceOf(hash + "/" + filename) == Source(hash + "/" + filename, filename, PdfNameOf(filename))
  {
    JobNameIsPlain(filename);
    PartsOfPair(hash, filename);
    PartsOfName(filename);
  }

  // ---- the result API on a job ----

  /** A digest in the query string is taken as it is. */
  lemma DigestQuery(hash: string, body: Body)
    requires IsDigest(hash)
    ensures ExtractResultIdentifier(Some(hash), body) == Ok(hash)
  {
    DigestEdges(hash);
    UnpaddedStrip(hash);
    assert IsValidSha256(hash);
  }

  lemma DigestEdges(hash: string)
    requires IsDigest(hash)
    ensures |hash| == 64 && !IsSpace(hash[0]) && !IsSpace(hash[63])
  {
    assert IsLowerHexDigit(hash[0]) && IsLowerHexDigit(hash[63]);
  }

  /** The body of a marker written by the converter reads back as the PDF's
      name. */
  lemma MarkerReadsBack(w: World, bucket: string, key: string, text: string)
    requires Exists(w, bucket, key) && w.buckets[bucket][key] == Utf8.Encode(text)
    ensures ReadText(w, bucket, key) == Ok(text)
  {
    Utf8.DecodeEncode(text);
  }

  /** When the job's source key is the only workbook under `{hash}/`, the
      result API finds it. */
  lemma JobFound(w: World, bucket: string, hash: string, filename: string)
    requires bucket in w.buckets && IsJobId(hash) && IsJobName(filename)
    requires hash + "/" + filename in w.buckets[bucket]
    requires forall k :: k in w.buckets[bucket] && StartsWith(k, hash + "/") && IsSourceKey(k) ==> k == hash + "/" + filename
    ensures FindOriginal(w, bucket, hash) == Ok(Some(hash + "/" + filename))
  {
    JobKeyIsSource(hash, filename);
    JoinKeyPlain(hash, "");
    assert hash + "/" + "" == hash + "/";
    FindOriginalIsLeast(w, bucket, hash);
  }

  /** The result API asked, by query string or body, about a job it finds:
      the answer for the job's source. */
  lemma LookupOfJob(w: World, bucket: string, query: Option<string>, body: Body, hash: string, filename: string)
    requires ExtractResultIdentifier(query, body) == Ok(hash)
    requires bucket != "" && bucket in w.buckets && IsJobName(filename)
    requires hash + "/" + filename in w.buckets[bucket]
    requires forall k :: k in w.buckets[bucket] && StartsWith(k, hash + "/") && IsSourceKey(k) ==> k == hash + "/" + filename
    ensures LookupResult(w, query, body, Some(bucket))
         == Answer(w, bucket, hash, Source(hash + "/" + filename, filename, PdfNameOf(filename)))
  {
    assert LookupResult(w, query, body, Some(bucket)) == LookupJob(w, bucket, hash);
    JobFound(w, bucket, hash, filename);
    SourceOfJob(hash, filename);
  }

  /** Without a marker the job is in progress. */
  lemma LookupInProgress(w: World, bucket: string, query: Option<string>, body: Body, hash: string, filename: string)
    requires ExtractResultIdentifier(query, body) == Ok(hash)
    requires bucket != "" && bucket in w.buckets && IsJobName(filename)
    requires hash + "/" + filename in w.buckets[bucket]
    requires forall k :: k in w.buckets[bucket] && StartsWith(k, hash + "/") && IsSourceKey(k) ==> k == hash + "/" + filename
    requires hash + "/" + ResultObjectName !in w.buckets[bucket]
    ensures LookupResult(w, query, body, Some(bucket)) == Ok(InProgress(filename, hash))
  {
    LookupOfJob(w, bucket, query, body, hash, filename);
    JoinKeyPlain(hash, ResultObjectName);
  }

  /** With the marker and the PDF the converter writes, the job is ready. */
  lemma LookupReady(w: World, bucket: string, query: Option<string>, body: Body, hash: string, filename: string, pdf: seq<byte>)
    requires ExtractResultIdentifier(query, body) == Ok(hash)
    requires bucket != "" && bucket in w.buckets && IsJobName(filename)
    requires hash + "/" + filename in w.buckets[bucket]
    requires forall k :: k in w.buckets[bucket] && StartsWith(k, hash + "/") && IsSourceKey(k) ==> k == hash + "/" + filename
    requires var m := w.buckets[bucket];
      hash + "/" + PdfNameOf(filename) in m && m[hash + "/" + PdfNameOf(filename)] == pdf &&
      hash + "/" + ResultObjectName in m && m[hash + "/" + ResultObjectName] == Utf8.Encode(PdfNameOf(filename))
    ensures LookupResult(w, query, body, Some(bucket))
         == Ok(Ready(pdf, PdfNameOf(filename),
                     S3Uri(bucket, hash + "/" + filename), S3Uri(bucket, hash + "/" + PdfNameOf(filename))))
  {
    var n := PdfNameOf(filename);
    var src := Source(hash + "/" + filename, filename, n);
    LookupOfJob(w, bucket, query, body, hash, filename);
    JoinKeyPlain(hash, ResultObjectName);
    JoinKeyPlain(hash, n);
    PdfNameIsPlain(filename);
    PartsOfPair(hash, n);
    MarkerReadsBack(w, bucket, JoinKey(hash, ResultObjectName), n);
    MarkerAnswerChoosesPdf(w, bucket, hash, src, n);
  }

  // ---- the whole job ----

  /** Submitting a workbook leaves exactly its source object under `{hash}/`. */
  lemma SubmittedJob(w: World, req: SubmitRequest, env: Environment,
                     fingerprint: seq<byte> -> Digest, b64decode: string -> Option<seq<byte>>,
                     filename: string, data: string, bucket: string, bytes: seq<byte>, source: string)
    requires Validate(req) == Ok((filename, data))
    requires env.defaultTargetBucket == Some(bucket) && bucket != "" && bucket in w.buckets
    requires forall k :: (bucket, k) !in w.denied
    requires LoadWorkbookBytes(w, data, env.sourceBucket, b64decode) == Ok((bytes, source))
    ensures var (r, w1) := SubmitSpec(w, req, env, fingerprint, b64decode);
      var hash := fingerprint(bytes);
      var key := hash + "/" + filename;
      r == Ok(Submitted(202, filename, "submitted", hash)) &&
      w1.denied == w.denied && bucket in w1.buckets &&
      key in w1.buckets[bucket] && w1.buckets[bucket][key] == bytes &&
      (forall k :: k in w1.buckets[bucket] && StartsWith(k, hash + "/") <==> k == key)
  {
    var hash: string := fingerprint(bytes);
    assert SubmitSpec(w, req, env, fingerprint, b64decode) == StoreJob(w, bucket, hash, filename, bytes);
    DigestPrefix(fingerprint(bytes));
    StoredJob(w, bucket, hash, filename, bytes);
  }

  lemma StoredJob(w: World, bucket: string, hash: string, filename: string, bytes: seq<byte>)
    requires StripSlashes(hash) == hash && hash != "" && '/' !in hash
    requires bucket in w.buckets && (bucket, hash + "/" + filename) !in w.denied
    requires Deletable(w, bucket, hash + "/")
    ensures var (r, w1) := StoreJob(w, bucket, hash, filename, bytes);
      var key := hash + "/" + filename;
      r == Ok(Submitted(202, filename, "submitted", hash)) &&
      w1.denied == w.denied && bucket in w1.buckets &&
      key in w1.buckets[bucket] && w1.buckets[bucket][key] == bytes &&
      (forall k :: k in w1.buckets[bucket] && StartsWith(k, hash + "/") <==> k == key)
  {
    StoreJobOutcome(w, bucket, hash, filename, bytes);
    AfterSubmitContents(w.buckets[bucket], hash, filename, bytes);
  }

  /** ... so the result API, asked about the fingerprint, reports the job in
      progress. */
  lemma SubmitThenLookup(w: World, req: SubmitRequest, env: Environment,
                         fingerprint: seq<byte> -> Digest, b64decode: string -> Option<seq<byte>>,
                         filename: string, data: string, bucket: string, bytes: seq<byte>, source: string,
                         query: Option<string>, body: Body)
    requires Validate(req) == Ok((filename, data))
    requires env.defaultTargetBucket == Some(bucket) && bucket != "" && bucket in w.buckets
    requires forall k :: (bucket, k) !in w.denied
    requires LoadWorkbookBytes(w, data, env.sourceBucket, b64decode) == Ok((bytes, source))
    requires var hash: string := fingerprint(bytes); ExtractResultIdentifier(query, body) == Ok(hash)
    ensures var w1 := SubmitSpec(w, req, env, fingerprint, b64decode).1;
      LookupResult(w1, query, body, Some(bucket)) == Ok(InProgress(filename, fingerprint(bytes)))
  {
    var hash: string := fingerprint(bytes);
    SubmittedJob(w, req, env, fingerprint, b64decode, filename, data, bucket, bytes, source);
    var w1 := SubmitSpec(w, req, env, fingerprint, b64decode).1;
    InProgressAfterSubmit(w1, bucket, query, body, hash, filename);
  }

  /** A job whose source object is alone under `{hash}/` is in progress. */
  lemma InProgressAfterSubmit(w1: World, bucket: string, query: Option<string>, body: Body, hash: string, filename: string)
    requires ExtractResultIdentifier(query, body) == Ok(hash)
    requires bucket != "" && bucket in w1.buckets && IsJobName(filename)
    requires hash + "/" + filename in w1.buckets[bucket]
    requires forall k :: k in w1.buckets[bucket] && StartsWith(k, hash + "/") <==> k == hash + "/" + filename
    ensures LookupResult(w1, query, body, Some(bucket)) == Ok(InProgress(filename, hash))
  {
    JobNameIsPlain(filename);
    MarkerIsNotJob(hash, filename);
    KeyUnder(hash, ResultObjectName);
    LookupInProgress(w1, bucket, query, body, hash, filename);
  }

  lemma KeyUnder(hash: string, name: string)
    ensures StartsWith(hash + "/" + name, hash + "/")
  {
    assert (hash + "/" + name)[..|hash| + 1] == hash + "/";
  }

  /** The marker's key is not the job's source key. */
  lemma MarkerIsNotJob(hash: string, filename: string)
    requires filename != ResultObjectName
    ensures hash + "/" + ResultObjectName != hash + "/" + filename
  {
    assert (hash + "/" + ResultObjectName)[|hash| + 1..] == ResultObjectName;
    assert (hash + "/" + filename)[|hash| + 1..] == filename;
  }

  /** Processing a job whose source object is alone under `{hash}/` writes
      the PDF and the marker there, after which the result API hands out the
      rendered PDF under its own name. */
  lemma ProcessThenLookup(w1: World, bucket: string, hash: string, filename: string, bytes: seq<byte>,
                          render: seq<byte> -> Option<seq<byte>>, pdf: seq<byte>, query: Option<string>, body: Body)
    requires ExtractResultIdentifier(query, body) == Ok(hash)
    requires bucket != "" && bucket in w1.buckets && IsJobName(filename)
    requires forall k :: (bucket, k) !in w1.denied
    requires var key := hash + "/" + filename;
      key in w1.buckets[bucket] && w1.buckets[bucket][key] == bytes &&
      forall k :: k in w1.buckets[bucket] && StartsWith(k, hash + "/") <==> k == key
    requires bytes != [] && render(bytes) == Some(pdf)
    ensures var key := hash + "/" + filename;
      var (r, w2) := Process(w1, bucket, key, render);
      r == Ok(Outcome(S3Uri(bucket, key), S3Uri(bucket, hash + "/" + PdfNameOf(filename)),
                      S3Uri(bucket, hash + "/" + ResultObjectName))) &&
      LookupResult(w2, query, body, Some(bucket))
      == Ok(Ready(pdf, PdfNameOf(filename), S3Uri(bucket, key), S3Uri(bucket, hash + "/" + PdfNameOf(filename))))
  {
    ProcessJob(w1, bucket, hash, filename, bytes, render, pdf);
    var w2 := Process(w1, bucket, hash + "/" + filename, render).1;
    assert hash + "/" + filename in w1.buckets[bucket];
    ConvertedJob(w1.buckets[bucket], hash, filename, pdf);
    LookupReady(w2, bucket, query, body, hash, filename, pdf);
  }

  /** The converter's run on a job's source object: both writes succeed. */
  lemma ProcessJob(w1: World, bucket: string, hash: string, filename: string, bytes: seq<byte>,
                   render: seq<byte> -> Option<seq<byte>>, pdf: seq<byte>)
    requires bucket in w1.buckets && IsJobId(hash) && IsJobName(filename)
    requires forall k :: (bucket, k) !in w1.denied
    requires var key := hash + "/" + filename;
      key in w1.buckets[bucket] && w1.buckets[bucket][key] == bytes
    requires bytes != [] && render(bytes) == Some(pdf)
    ensures var key := hash + "/" + filename;
      var n := PdfNameOf(filename);
      var (r, w2) := Process(w1, bucket, key, render);
      r == Ok(Outcome(S3Uri(bucket, key), S3Uri(bucket, hash + "/" + n), S3Uri(bucket, hash + "/" + ResultObjectName))) &&
      w2.buckets == w1.buckets[bucket := w1.buckets[bucket][hash + "/" + n := pdf][hash + "/" + ResultObjectName := Utf8.Encode(n)]]
  {
    var key := hash + "/" + filename;
    var n := PdfNameOf(filename);
    var lay := Layout(n, hash + "/" + n, hash + "/" + ResultObjectName);
    ProcessIsAt(w1, bucket, hash, filename, render);
    ProcessOutcome(w1, bucket, key, lay, render);
  }

  /** The converter places a job's outputs next to its source. */
  lemma ProcessIsAt(w: World, bucket: string, hash: string, filename: string, render: seq<byte> -> Option<seq<byte>>)
    requires IsJobId(hash) && IsJobName(filename)
    ensures var n := PdfNameOf(filename);
      Process(w, bucket, hash + "/" + filename, render)
      == ProcessAt(w, bucket, hash + "/" + filename, Layout(n, hash + "/" + n, hash + "/" + ResultObjectName), render)
  {
    JobNameIsPlain(filename);
    JobLayoutOfJob(hash, filename);
  }

  /** After the conversion the source object is still the only workbook
      under `{hash}/`, next to the PDF and the marker. */
  lemma ConvertedJob(m1: Bucket, hash: string, filename: string, pdf: seq<byte>)
    requires IsJobId(hash) && IsJobName(filename)
    requires forall k :: k in m1 && StartsWith(k, hash + "/") <==> k == hash + "/" + filename
    ensures var n := PdfNameOf(filename);
      var m2 := m1[hash + "/" + n := pdf][hash + "/" + ResultObjectName := Utf8.Encode(n)];
      hash + "/" + filename in m2 &&
      m2[hash + "/" + n] == pdf && m2[hash + "/" + ResultObjectName] == Utf8.Encode(n) &&
      forall k :: k in m2 && StartsWith(k, hash + "/") && IsSourceKey(k) ==> k == hash + "/" + filename
  {
    JobKeyIsSource(hash, filename);
    ConvertedKeys(m1, hash, filename, pdf);
    ConvertedSources(m1, hash, filename, pdf);
  }

  lemma ConvertedKeys(m1: Bucket, hash: string, filename: string, pdf: seq<byte>)
    requires IsJobName(filename)
    requires hash + "/" + filename in m1
    ensures var n := PdfNameOf(filename);
      var m2 := m1[hash + "/" + n := pdf][hash + "/" + ResultObjectName := Utf8.Encode(n)];
      hash + "/" + filename in m2 &&
      m2[hash + "/" + n] == pdf && m2[hash + "/" + ResultObjectName] == Utf8.Encode(n)
  {
    PdfNameIsPlain(filename);
    PdfIsNotMarker(hash, PdfNameOf(filename));
  }

  lemma ConvertedSources(m1: Bucket, hash: string, filename: string, pdf: seq<byte>)
    requires IsJobId(hash) && IsJobName(filename)
    requires forall k :: k in m1 && StartsWith(k, hash + "/") ==> k == hash + "/" + filename
    ensures var n := PdfNameOf(filename);
      var m2 := m1[hash + "/" + n := pdf][hash + "/" + ResultObjectName := Utf8.Encode(n)];
      forall k :: k in m2 && StartsWith(k, hash + "/") && IsSourceKey(k) ==> k == hash + "/" + filename
  {
    OutputsAreNotSources(hash, filename);
  }

  lemma PdfIsNotMarker(hash: string, n: string)
    requires n != ResultObjectName
    ensures hash + "/" + n != hash + "/" + ResultObjectName
  {
    assert (hash + "/" + n)[|hash| + 1..] == n;
    assert (hash + "/" + ResultObjectName)[|hash| + 1..] == ResultObjectName;
  }

  /** The whole job: submit a workbook, see it in progress, convert it, and
      get back the rendered PDF named after the workbook, together with the
      URIs of the workbook and of the PDF. */
  lemma JobLifecycle(w: World, req: SubmitRequest, env: Environment,
                     fingerprint: seq<byte> -> Digest, b64decode: string -> Option<seq<byte>>,
                     render: seq<byte> -> Option<seq<byte>>,
                     filename: string, data: string, bucket: string, bytes: seq<byte>, source: string,
                     pdf: seq<byte>, body: Body)
    requires Validate(req) == Ok((filename, data))
    requires env.defaultTargetBucket == Some(bucket) && bucket != "" && bucket in w.buckets
    requires forall k :: (bucket, k) !in w.denied
    requires LoadWorkbookBytes(w, data, env.sourceBucket, b64decode) == Ok((bytes, source))
    requires render(bytes) == Some(pdf)
    ensures var (r1, w1) := SubmitSpec(w, req, env, fingerprint, b64decode);
      var hash := fingerprint(bytes);
      var key := hash + "/" + filename;
      var pdfKey := hash + "/" + PdfNameOf(filename);
      var (r2, w2) := Process(w1, bucket, key, render);
      r1 == Ok(Submitted(202, filename, "submitted", hash)) &&
      LookupResult(w1, Some(hash), body, Some(bucket)) == Ok(InProgress(filename, hash)) &&
      r2.Ok? &&
      LookupResult(w2, Some(hash), body, Some(bucket))
      == Ok(Ready(pdf, PdfNameOf(filename), S3Uri(bucket, key), S3Uri(bucket, pdfKey)))
  {
    var hash := fingerprint(bytes);
    DigestQuery(hash, body);
    SubmittedJob(w, req, env, fingerprint, b64decode, filename, data, bucket, bytes, source);
    SubmitThenLookup(w, req, env, fingerprint, b64decode, filename, data, bucket, bytes, source, Some(hash), body);
    var w1 := SubmitSpec(w, req, env, fingerprint, b64decode).1;
    ProcessThenLookup(w1, bucket, hash, filename, bytes, render, pdf, Some(hash), body);
  }

  /** A worked example: `Q1.xlsx` is converted to `Q1.pdf`. */
  lemma Q1Lifecycle(w: World, data: string, env: Environment,
                    fingerprint: seq<byte> -> Digest, b64decode: string -> Option<seq<byte>>,
                    render: seq<byte> -> Option<seq<byte>>,
                    bucket: string, bytes: seq<byte>, source: string, pdf: seq<byte>, body: Body)
    requires data != ""
    requires env.defaultTargetBucket == Some(bucket) && bucket != "" && bucket in w.buckets
    requires forall k :: (bucket, k) !in w.denied
    requires LoadWorkbookBytes(w, data, env.sourceBucket, b64decode) == Ok((bytes, source))
    requires render(bytes) == Some(pdf)
    ensures var req := SubmitRequest(Some("Q1.xlsx"), Some("xlsx"), Some(data));
      var (r1, w1) := SubmitSpec(w, req, env, fingerprint, b64decode);
      var hash := fingerprint(bytes);
      var (r2, w2) := Process(w1, bucket, hash + "/" + "Q1.xlsx", render);
      r1 == Ok(Submitted(202, "Q1.xlsx", "submitted", hash)) &&
      LookupResult(w1, Some(hash), body, Some(bucket)) == Ok(InProgress("Q1.xlsx", hash)) &&
      LookupResult(w2, Some(hash), body, Some(bucket))
      == Ok(Ready(pdf, "Q1.pdf", S3Uri(bucket, hash + "/" + "Q1.xlsx"), S3Uri(bucket, hash + "/" + "Q1.pdf")))
  {
    var req := SubmitRequest(Some("Q1.xlsx"), Some("xlsx"), Some(data));
    Q1Accepted(req, data);
    Q1Stem();
    JobLifecycle(w, req, env, fingerprint, b64decode, render, "Q1.xlsx", data, bucket, bytes, source, pdf, body);
  }

  lemma Q1Accepted(req: SubmitRequest, data: string)
    requires data != "" && req == SubmitRequest(Some("Q1.xlsx"), Some("xlsx"), Some(data))
    ensures Validate(req) == Ok(("Q1.xlsx", data))
  {
    Q1Sanitized();
    XlsxFormat();
    assert FormatField(req.format) == "xlsx";
  }

  lemma XlsxFormat()
    ensures Lower("xlsx") == SupportedInputFormat
  {
    LowerKeeps("xlsx");
  }

  lemma Q1Sanitized()
    ensures SanitizeFilename(Some("Q1.xlsx")) == Ok("Q1.xlsx")
  {
    PartsOfName("Q1.xlsx");
    Q1IsWorkbook();
  }

  lemma Q1IsWorkbook()
    ensures HasXlsxSuffix("Q1.xlsx")
  {
    var s := "Q1.xlsx";
    assert s[2..] == ".xlsx";
    LowerKeeps(".xlsx");
    assert Lower(s)[2..] == Lower(s[2..]);
  }

  lemma Q1Stem()
    ensures PdfNameOf("Q1.xlsx") == "Q1.pdf"
  {
    Q1IsWorkbook();
    StemOfXlsxName("Q1.xlsx");
    assert "Q1.xlsx"[..2] == "Q1";
  }
}
