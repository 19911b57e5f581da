/** The single-shot converter of `src/app.py`: a payload names a workbook
    (inline or in the store), the workbook is rendered to PDF, and the PDF is
    written to a target location that is resolved from the payload's
    `target` and the default bucket. The API transport may skip the write
    and return the PDF instead. */
module App {
  import opened Wrappers
  import opened Text
  import opened PosixPath
  import opened Keys
  import opened Store
  import opened Common

  /** `S3Location`. */
  datatype Location = Location(bucket: string, key: string)

  /** `S3Location.uri`: the bare bucket URI when the key is empty. */
  function Uri(loc: Location): string {
    if loc.key == "" then "s3://" + loc.bucket else S3Uri(loc.bucket, loc.key)
  }

  // ---- the target key ----

  /** `f"{Path(filename).stem}.pdf"`. */
  function PdfName(filename: string): (r: string)
    ensures EndsWith(r, ".pdf") && EndsWithIgnoringCase(r, ".pdf")
    ensures r != "" && r != "." && '/' !in r
  {
    var stem := Stem(filename);
    assert '/' !in Name(filename);
    assert '/' !in stem by {
      assert stem == Name(filename)[..|stem|];
    }
    var r := stem + ".pdf";
    assert r[|r| - 4..] == ".pdf";
    PdfSuffixIgnoringCase(r);
    r
  }

  /** A name ending in `.pdf` ends in `.pdf` once lower-cased too. */
  lemma PdfSuffixIgnoringCase(s: string)
    requires EndsWith(s, ".pdf")
    ensures EndsWithIgnoringCase(s, ".pdf")
  {
    assert Lower(s)[|s| - 4..] == Lower(s[|s| - 4..]);
    LowerKeeps(".pdf");
  }

  /** `_normalise_target_key(proposed_key, pdf_name)`: the stripped key; an
      empty one is the PDF's name, a folder (trailing `/`) gets the PDF's
      name appended, and anything else ends in `.pdf`. */
  function NormaliseTargetKey(proposedKey: string, pdfName: string): (r: string)
    ensures EndsWithIgnoringCase(pdfName, ".pdf") ==> EndsWithIgnoringCase(r, ".pdf")
    ensures r == pdfName || StartsWith(r, Strip(proposedKey)) || EndsWith(Strip(proposedKey), "/")
  {
    var key := Strip(proposedKey);
    if key == "" then pdfName
    else if EndsWith(key, "/") then
      var folder := RStrip(key, IsSlash) + "/";
      FolderKeepsSuffix(folder, pdfName);
      folder + pdfName
    else if EndsWithIgnoringCase(key, ".pdf") then key
    else
      assert (key + ".pdf")[..|key|] == key;
      assert EndsWith(key + ".pdf", ".pdf") by {
        assert (key + ".pdf")[|key + ".pdf"| - 4..] == ".pdf";
      }
      PdfSuffixIgnoringCase(key + ".pdf");
      key + ".pdf"
  }

  lemma FolderKeepsSuffix(folder: string, pdfName: string)
    ensures EndsWithIgnoringCase(pdfName, ".pdf") ==> EndsWithIgnoringCase(folder + pdfName, ".pdf")
  {
    if EndsWithIgnoringCase(pdfName, ".pdf") {
      EndsWithIgnoringCaseAppend(folder, pdfName, ".pdf");
    }
  }

  /** What each kind of proposed key becomes. */
  lemma NormaliseTargetKeyCases(proposedKey: string, pdfName: string)
    ensures var key := Strip(proposedKey);
      var r := NormaliseTargetKey(proposedKey, pdfName);
      (key == "" ==> r == pdfName) &&
      (key != "" && EndsWith(key, "/") ==> r == RStrip(key, IsSlash) + "/" + pdfName) &&
      (key != "" && !EndsWith(key, "/") && EndsWithIgnoringCase(key, ".pdf") ==> r == key) &&
      (key != "" && !EndsWith(key, "/") && !EndsWithIgnoringCase(key, ".pdf") ==> r == key + ".pdf")
  {
  }

  /** Normalising a key that is already normal changes nothing, provided the
      PDF's name does not start with white space. */
  lemma NormaliseTargetKeyIdempotent(proposedKey: string, pdfName: string)
    requires EndsWithIgnoringCase(pdfName, ".pdf") && !IsSpace(pdfName[0])
    ensures var once := NormaliseTargetKey(proposedKey, pdfName);
      NormaliseTargetKey(once, pdfName) == once
  {
    NormalisedShape(proposedKey, pdfName);
    NormalIsFixed(NormaliseTargetKey(proposedKey, pdfName), pdfName);
  }

  /** A normalised key is not empty, does not start with white space and
      ends in `.pdf`. */
  lemma NormalisedShape(proposedKey: string, pdfName: string)
    requires EndsWithIgnoringCase(pdfName, ".pdf") && !IsSpace(pdfName[0])
    ensures var once := NormaliseTargetKey(proposedKey, pdfName);
      once != "" && !IsSpace(once[0]) && EndsWithIgnoringCase(once, ".pdf")
  {
    var key := Strip(proposedKey);
    StripEdges(proposedKey);
    if key != "" && EndsWith(key, "/") {
      var folder := RStrip(key, IsSlash);
      if folder != "" {
        assert folder[0] == key[0];
      }
      assert (folder + "/" + pdfName)[0] == if folder == "" then '/' else folder[0];
    } else if key != "" {
      assert (key + ".pdf")[0] == key[0];
    }
  }

  /** A key that does not start with white space and ends in `.pdf` is
      already normal. */
  lemma NormalIsFixed(key: string, pdfName: string)
    requires key != "" && !IsSpace(key[0]) && EndsWithIgnoringCase(key, ".pdf")
    ensures NormaliseTargetKey(key, pdfName) == key
  {
    assert LowerChar(key[|key| - 1]) == Lower(key)[|key| - 1] == 'f';
    StripFixpoint(key);
    assert !EndsWith(key, "/");
  }

  /** `_resolve_target(target, filename)` with the PDF's name given: an
      `s3://` target names the bucket and the key, a bare target is a key in
      the default bucket, and no target means `converted/` in the default
      bucket. */
  function ResolveTarget(target: Option<string>, pdfName: string, defaultBucket: Option<string>): (r: Result<Location>)
    ensures r.Ok? && EndsWithIgnoringCase(pdfName, ".pdf") ==> EndsWithIgnoringCase(r.value.key, ".pdf")
    ensures target.Some? && StartsWith(target.value, "s3://") ==>
      (r.Err? <==> ParseS3Uri(target.value).Err?) &&
      (r.Err? ==> r.error == ParseS3Uri(target.value).error) &&
      (r.Ok? ==> r.value == Location(ParseS3Uri(target.value).value.0,
                                     NormaliseTargetKey(ParseS3Uri(target.value).value.1, pdfName)))
    ensures target.Some? && target.value != "" && !StartsWith(target.value, "s3://") ==>
      (r.Ok? <==> DefaultBucket(defaultBucket).Ok?) &&
      (r.Err? ==> r.error == TargetWithoutDefaultBucket) &&
      (r.Ok? ==> r.value == Location(defaultBucket.value, NormaliseTargetKey(LStrip(target.value, IsSlash), pdfName)))
    ensures (target.None? || target.value == "") ==>
      (r.Ok? <==> DefaultBucket(defaultBucket).Ok?) &&
      (r.Err? ==> r.error == NoTargetNoDefaultBucket)
  {
    if target.Some? && target.value != "" && StartsWith(target.value, "s3://") then
      match ParseS3Uri(target.value)
      case Err(e) => Err(e)
      case Ok((bucket, key)) => Ok(Location(bucket, NormaliseTargetKey(key, pdfName)))
    else if target.Some? && target.value != "" then
      if DefaultBucket(defaultBucket).Err? then Err(TargetWithoutDefaultBucket)
      else Ok(Location(defaultBucket.value, NormaliseTargetKey(LStrip(target.value, IsSlash), pdfName)))
    else if DefaultBucket(defaultBucket).Err? then Err(NoTargetNoDefaultBucket)
    else Ok(Location(defaultBucket.value, NormaliseTargetKey("converted/" + pdfName, pdfName)))
  }

  /** An `s3://bucket` target without a key puts the PDF at the top of that
      bucket under its own name. */
  lemma ResolveBucketOnly(bucket: string, filename: string, defaultBucket: Option<string>)
    requires bucket != "" && '/' !in bucket
    ensures var pdfName := PdfName(filename);
      var r := ResolveTarget(Some("s3://" + bucket), pdfName, defaultBucket);
      r == Ok(Location(bucket, pdfName)) && Name(r.value.key) == pdfName && Uri(r.value) == S3Uri(bucket, pdfName)
  {
    var pdfName := PdfName(filename);
    ResolveBucketUri(bucket, pdfName, defaultBucket);
    PartsOfName(pdfName);
  }

  lemma ResolveBucketUri(bucket: string, pdfName: string, defaultBucket: Option<string>)
    requires bucket != "" && '/' !in bucket
    ensures ResolveTarget(Some("s3://" + bucket), pdfName, defaultBucket) == Ok(Location(bucket, pdfName))
  {
    var uri := "s3://" + bucket;
    ParseS3UriRoundTrip(bucket, "");
    assert uri[..5] == "s3://";
    NormaliseEmpty(pdfName);
  }

  lemma NormaliseEmpty(pdfName: string)
    ensures NormaliseTargetKey("", pdfName) == pdfName
  {
    assert Strip("") == "";
  }

  /** Without a target the PDF goes to `converted/{pdf name}` in the
      default bucket, and its name there is the PDF's name. */
  lemma ResolveWithoutTarget(target: Option<string>, pdfName: string, bucket: string)
    requires target.None? || target.value == ""
    requires bucket != ""
    requires EndsWith(pdfName, ".pdf") && '/' !in pdfName
    ensures var r := ResolveTarget(target, pdfName, Some(bucket));
      r == Ok(Location(bucket, "converted/" + pdfName)) && Name(r.value.key) == pdfName
  {
    DefaultLocation(target, pdfName, bucket);
    ConvertedName(pdfName);
  }

  lemma DefaultLocation(target: Option<string>, pdfName: string, bucket: string)
    requires target.None? || target.value == ""
    requires bucket != ""
    requires EndsWith(pdfName, ".pdf")
    ensures ResolveTarget(target, pdfName, Some(bucket)) == Ok(Location(bucket, "converted/" + pdfName))
  {
    DefaultKeyIsNormal(pdfName);
  }

  lemma ConvertedName(pdfName: string)
    requires EndsWith(pdfName, ".pdf") && '/' !in pdfName
    ensures Name("converted/" + pdfName) == pdfName
  {
    assert "converted/" + pdfName == "converted" + "/" + pdfName;
    PartsOfPair("converted", pdfName);
  }

  lemma DefaultKeyIsNormal(pdfName: string)
    requires EndsWith(pdfName, ".pdf")
    ensures NormaliseTargetKey("converted/" + pdfName, pdfName) == "converted/" + pdfName
  {
    var key := "converted/" + pdfName;
    assert key[0] == 'c';
    PdfSuffixIgnoringCase(pdfName);
    EndsWithIgnoringCaseAppend("converted/", pdfName, ".pdf");
    NormalIsFixed(key, pdfName);
  }

  // ---- the payload ----

  /** A JSON field that may be missing, `null`, or a string. */
  datatype Field = Absent | Null | Str(s: string)

  /** The fields `_process_payload` reads. `filename`, `data` and `target`
      are `None` when missing or `null`. */
  datatype Payload = Payload(filename: Option<string>, format: Field, data: Option<string>, target: Option<string>)

  /** `ConversionResult`: the metadata record and, for the API, the PDF. */
  datatype Conversion = Conversion(source: string, target: string, filename: string, invocation: string,
                                   pdf: Option<seq<byte>>)

  /** `payload.get("format", "").lower()`: a missing format is empty; a
      `null` one has no `lower` and fails. */
  function RequestedFormat(format: Field): (r: Result<string>)
    ensures r.Err? <==> format.Null?
    ensures r.Err? ==> r.error == FormatNotString
    ensures format.Str? ==> r == Ok(Lower(format.s))
  {
    match format
    case Absent => Ok("")
    case Null => Err(FormatNotString)
    case Str(s) => Ok(Lower(s))
  }

  /** The checks `_process_payload` makes before anything is read or
      rendered. Gives the filename and the data. */
  function ValidatePayload(p: Payload): (r: Result<(string, string)>)
    ensures r.Ok? <==>
      p.filename.Some? && p.filename.value != "" &&
      RequestedFormat(p.format) == Ok(SupportedInputFormat) &&
      p.data.Some? && p.data.value != ""
    ensures r.Ok? ==> r.value == (p.filename.value, p.data.value)
    ensures p.filename.None? || p.filename.value == "" ==> r == Err(FilenameMissing)
    ensures (p.filename.Some? && p.filename.value != "" && RequestedFormat(p.format).Err?) ==> r == Err(FormatNotString)
    ensures (p.filename.Some? && p.filename.value != "" && RequestedFormat(p.format).Ok? &&
             RequestedFormat(p.format).value != SupportedInputFormat) ==> r == Err(UnsupportedFormat)
    ensures (p.filename.Some? && p.filename.value != "" && RequestedFormat(p.format) == Ok(SupportedInputFormat) &&
             (p.data.None? || p.data.value == "")) ==> r == Err(DataMissing)
  {
    if p.filename.None? || p.filename.value == "" then Err(FilenameMissing)
    else match RequestedFormat(p.format)
      case Err(e) => Err(e)
      case Ok(format) =>
        if format != SupportedInputFormat then Err(UnsupportedFormat)
        else if p.data.None? || p.data.value == "" then Err(DataMissing)
        else Ok((p.filename.value, p.data.value))
  }

  /** `_is_blank_string(value)`: a string of white space only. */
  predicate IsBlankString(value: Option<string>) {
    value.Some? && Strip(value.value) == ""
  }

  /** The PDF is written unless the caller wants it back and the target is
      blank. */
  predicate WritesPdf(returnPdf: bool, target: Option<string>) {
    !(returnPdf && IsBlankString(target))
  }

  /** `_process_payload(payload, invocation_source, return_pdf)` as a step of
      the store. `render` is the converter. */
  function PayloadSpec(w: World, p: Payload, defaultBucket: Option<string>, sourceBucket: Option<string>,
                       invocation: string, returnPdf: bool,
                       render: seq<byte> -> Option<seq<byte>>, b64decode: string -> Option<seq<byte>>)
    : (Result<Conversion>, World)
  {
    match ValidatePayload(p)
    case Err(e) => (Err(e), w)
    case Ok((filename, data)) =>
      match LoadWorkbookBytes(w, data, sourceBucket, b64decode)
      case Err(e) => (Err(e), w)
      case Ok((bytes, source)) =>
        match render(bytes)
        case None => (Err(RenderFailed), w)
        case Some(pdf) =>
          var pdfName := PdfName(filename);
          var returned := if returnPdf then Some(pdf) else None;
          if !WritesPdf(returnPdf, p.target) then (Ok(Conversion(source, "", pdfName, invocation, returned)), w)
          else
            match ResolveTarget(p.target, pdfName, defaultBucket)
            case Err(e) => (Err(e), w)
            case Ok(loc) =>
              var (stored, w1) := Put(w, loc.bucket, loc.key, pdf);
              if stored.Err? then (Err(PdfStoreFailed), w1)
              else (Ok(Conversion(source, Uri(loc), Name(loc.key), invocation, returned)), w1)
  }

  /** `_process_payload` on the store. */
  method ProcessPayload(store: ObjectStore, p: Payload, defaultBucket: Option<string>, sourceBucket: Option<string>,
                        invocation: string, returnPdf: bool,
                        render: seq<byte> -> Option<seq<byte>>, b64decode: string -> Option<seq<byte>>)
    returns (r: Result<Conversion>)
    modifies store
    ensures (r, store.State()) == PayloadSpec(old(store.State()), p, defaultBucket, sourceBucket, invocation, returnPdf, render, b64decode)
  {
    var valid := ValidatePayload(p);
    if valid.Err? {
      return Err(valid.error);
    }
    var filename := valid.value.0;
    var loaded := LoadWorkbook(store, valid.value.1, sourceBucket, b64decode);
    if loaded.Err? {
      return Err(loaded.error);
    }
    var source := loaded.value.1;
    var rendered := render(loaded.value.0);
    if rendered.None? {
      return Err(RenderFailed);
    }
    var pdf := rendered.value;
    var pdfName := PdfName(filename);
    var returned := if returnPdf then Some(pdf) else None;
    if !WritesPdf(returnPdf, p.target) {
      return Ok(Conversion(source, "", pdfName, invocation, returned));
    }
    var loc := ResolveTarget(p.target, pdfName, defaultBucket);
    if loc.Err? {
      return Err(loc.error);
    }
    var stored := store.PutObject(loc.value.bucket, loc.value.key, pdf);
    if stored.Err? {
      return Err(PdfStoreFailed);
    }
    return Ok(Conversion(source, Uri(loc.value), Name(loc.value.key), invocation, returned));
  }

  // ---- what processing a payload does ----

  /** A payload that fails validation is refused before the workbook is
      read or rendered: the answer depends neither on the store nor on the
      converter, and the store is left alone. */
  lemma InvalidPayloadRefused(w: World, w': World, p: Payload, defaultBucket: Option<string>, sourceBucket: Option<string>,
                              invocation: string, returnPdf: bool,
                              render: seq<byte> -> Option<seq<byte>>, render': seq<byte> -> Option<seq<byte>>,
                              b64decode: string -> Option<seq<byte>>)
    requires ValidatePayload(p).Err?
    ensures PayloadSpec(w, p, defaultBucket, sourceBucket, invocation, returnPdf, render, b64decode)
         == (Err(ValidatePayload(p).error), w)
    ensures PayloadSpec(w, p, defaultBucket, sourceBucket, invocation, returnPdf, render, b64decode).0
         == PayloadSpec(w', p, defaultBucket, sourceBucket, invocation, returnPdf, render', b64decode).0
  {
  }

  /** Once the payload is valid, the workbook loaded and rendered: without a
      write the store is untouched and the metadata names no target; with a
      write the PDF lands at the resolved location exactly when that
      location accepts it, and the metadata names it; the caller gets the
      PDF back exactly when it asked for it. */
  lemma PayloadOutcome(w: World, p: Payload, defaultBucket: Option<string>, sourceBucket: Option<string>,
                       invocation: string, returnPdf: bool,
                       render: seq<byte> -> Option<seq<byte>>, b64decode: string -> Option<seq<byte>>,
                       filename: string, data: string, bytes: seq<byte>, source: string, pdf: seq<byte>)
    requires ValidatePayload(p) == Ok((filename, data))
    requires LoadWorkbookBytes(w, data, sourceBucket, b64decode) == Ok((bytes, source))
    requires render(bytes) == Some(pdf)
    ensures var (r, w') := PayloadSpec(w, p, defaultBucket, sourceBucket, invocation, returnPdf, render, b64decode);
      var returned := if returnPdf then Some(pdf) else None;
      var loc := ResolveTarget(p.target, PdfName(filename), defaultBucket);
      w'.denied == w.denied &&
      (!WritesPdf(returnPdf, p.target) ==>
         r == Ok(Conversion(source, "", PdfName(filename), invocation, returned)) && w' == w) &&
      (WritesPdf(returnPdf, p.target) && loc.Err? ==> r == Err(loc.error) && w' == w) &&
      (WritesPdf(returnPdf, p.target) && loc.Ok? ==>
         (r.Ok? <==> loc.value.bucket in w.buckets && (loc.value.bucket, loc.value.key) !in w.denied) &&
         (r.Ok? ==>
            r.value == Conversion(source, Uri(loc.value), Name(loc.value.key), invocation, returned) &&
            w'.buckets == w.buckets[loc.value.bucket := w.buckets[loc.value.bucket][loc.value.key := pdf]]) &&
         (r.Err? ==> r.error == PdfStoreFailed && w'.buckets == w.buckets))
  {
  }

  /** Whether the PDF is written: always for a queue message, and for an API
      call unless the target is present and blank; a missing target still
      writes, to the default location. */
  lemma WriteDecision(returnPdf: bool, target: Option<string>)
    ensures !returnPdf ==> WritesPdf(returnPdf, target)
    ensures target.None? ==> WritesPdf(returnPdf, target)
    ensures returnPdf && target.Some? ==> (WritesPdf(returnPdf, target) <==> Strip(target.value) != "")
    ensures WritesPdf(returnPdf, Some(" ")) == !returnPdf
  {
    assert Strip(" ") == "" by {
      assert LStrip(" ", IsSpace) == LStrip(" "[1..], IsSpace);
    }
  }

  // ---- the event kind ----

  /** The `Records` field of an event: missing, not a list, or a list whose
      entries carry an `eventSource` (or not). */
  datatype RecordsField = NoRecords | NotAList | Records(eventSources: seq<Option<string>>)

  /** `_is_sqs_event(event)`. */
  predicate IsSqsEvent(records: RecordsField) {
    records.Records? && |records.eventSources| > 0 && records.eventSources[0] == Some("aws:sqs")
  }

  /** Only the first record decides: an event is a queue event exactly when
      its first record comes from SQS, whatever the others say; an empty or
      missing list never is. */
  lemma SqsEventByFirstRecord(sources: seq<Option<string>>, more: seq<Option<string>>)
    ensures IsSqsEvent(Records(sources + more)) <==>
      (if sources == [] then IsSqsEvent(Records(more)) else sources[0] == Some("aws:sqs"))
    ensures !IsSqsEvent(Records([])) && !IsSqsEvent(NoRecords) && !IsSqsEvent(NotAList)
  {
    if sources == [] {
      assert sources + more == more;
    } else {
      assert (sources + more)[0] == sources[0];
    }
  }
}
