/** The converter of `src/convert_handler.py`: triggered by S3 notifications,
    it renders every new `.xlsx` object to PDF, stores the PDF next to it as
    `{prefix}/{stem}.pdf`, and only then writes the result marker
    `{prefix}/result`, whose body is the PDF's name. The renderer is a
    parameter that may fail. */
module Convert {
  import opened Wrappers
  import opened Text
  import opened PosixPath
  import opened Keys
  import opened Store
  import opened Common
  import Utf8

  /** The fields of one notification record the handler reads:
      `eventSource`, `s3.bucket.name` and the URL-encoded `s3.object.key`.
      A missing field is `None`. */
  datatype EventRecord = EventRecord(eventSource: Option<string>, bucket: Option<string>, rawKey: Option<string>)

  /** The three URIs `_convert_object` reports. */
  datatype Outcome = Outcome(source: string, pdf: string, result: string)

  /** The handler's answer. */
  datatype Summary = Summary(status: string, processed: nat, results: seq<Outcome>)

  // ---- the keys of a job ----

  /** The objects `_convert_object` writes for a source key: the PDF's name,
      the PDF's key and the marker's key. */
  datatype Layout = Layout(pdfName: string, pdfKey: string, markerKey: string)

  /** `pdf_filename`, `pdf_key` and `result_key`: `{stem}.pdf` and `result`
      joined under the source key's prefix. */
  function JobLayout(key: string): Layout {
    LayoutUnder(PrefixForKey(key), Stem(key) + ".pdf")
  }

  /** The PDF named `pdfName` and the marker, both under `prefix`. */
  function LayoutUnder(prefix: string, pdfName: string): Layout {
    Layout(pdfName, JoinKey(prefix, pdfName), JoinKey(prefix, ResultObjectName))
  }

  /** The source, the PDF and the marker are three different objects. */
  predicate Separate(key: string, lay: Layout) {
    lay.pdfKey != key && lay.markerKey != key && lay.pdfKey != lay.markerKey
  }

  /** Joining two names under the same prefix gives the same key only for
      the same name. */
  lemma JoinKeyInjective(prefix: string, a: string, b: string)
    requires JoinKey(prefix, a) == JoinKey(prefix, b)
    ensures a == b
  {
    var p := StripSlashes(prefix);
    if p != "" {
      assert a == JoinKey(prefix, a)[|p| + 1..];
    }
  }

  /** For a workbook key the PDF's name ends in `.pdf`, and the source, the
      PDF and the marker are three different objects: processing never
      overwrites its source, and the PDF and the marker never overwrite each
      other. */
  lemma JobLayoutSeparate(key: string)
    requires HasXlsxSuffix(key)
    ensures EndsWith(JobLayout(key).pdfName, ".pdf")
    ensures Separate(key, JobLayout(key))
  {
    var name := Stem(key) + ".pdf";
    PdfNameEnds(Stem(key));
    LayoutUnderEnds(PrefixForKey(key), name);
    XlsxLastChar(key);
  }

  lemma PdfNameEnds(stem: string)
    ensures var name := stem + ".pdf";
      EndsWith(name, ".pdf") && name[|name| - 1] == 'f' && name != ResultObjectName
  {
    var name := stem + ".pdf";
    assert name[|name| - 4..] == ".pdf";
  }

  /** A workbook key ends in `x` or `X`. */
  lemma XlsxLastChar(key: string)
    requires HasXlsxSuffix(key)
    ensures key != [] && LowerChar(key[|key| - 1]) == 'x'
  {
    assert Lower(key)[|key| - 1] == XlsxSuffix[4];
  }

  /** The PDF's key ends as its name does and the marker's key in `t`; the
      two differ unless the PDF is named like the marker. */
  lemma LayoutUnderEnds(prefix: string, pdfName: string)
    requires pdfName != "" && pdfName != ResultObjectName
    ensures var lay := LayoutUnder(prefix, pdfName);
      lay.pdfKey != [] && lay.pdfKey[|lay.pdfKey| - 1] == pdfName[|pdfName| - 1] &&
      lay.markerKey != [] && lay.markerKey[|lay.markerKey| - 1] == 't' &&
      lay.pdfKey != lay.markerKey
  {
    var lay := LayoutUnder(prefix, pdfName);
    JoinKeyShape(prefix, pdfName);
    JoinKeyShape(prefix, ResultObjectName);
    assert EndsWith(lay.pdfKey, pdfName) && EndsWith(lay.markerKey, ResultObjectName);
    assert lay.pdfKey[|lay.pdfKey| - 1] == pdfName[|pdfName| - 1];
    if lay.pdfKey == lay.markerKey {
      JoinKeyInjective(prefix, pdfName, ResultObjectName);
    }
  }

  /** For the source object of a job, `{hash}/{name}`, the prefix is the
      hash. */
  lemma JobPrefix(hash: string, name: string)
    requires hash != "" && hash != "." && '/' !in hash
    requires name != "" && name != "." && '/' !in name
    ensures PrefixForKey(hash + "/" + name) == hash && Stem(hash + "/" + name) == StemOfName(name)
  {
    StripSlashesFixpoint(hash);
    PrefixOfJoin(hash, name);
  }

  /** For the source object of a job, `{hash}/{name}`, the PDF is
      `{hash}/{stem}.pdf` and the marker `{hash}/result`. */
  lemma JobLayoutOfJob(hash: string, name: string)
    requires hash != "" && hash != "." && '/' !in hash
    requires name != "" && name != "." && '/' !in name
    ensures JobLayout(hash + "/" + name)
         == Layout(StemOfName(name) + ".pdf", hash + "/" + (StemOfName(name) + ".pdf"), hash + "/" + ResultObjectName)
  {
    var pdfName := StemOfName(name) + ".pdf";
    JobPrefix(hash, name);
    LayoutUnderPlain(hash, pdfName);
  }

  lemma LayoutUnderPlain(prefix: string, pdfName: string)
    requires prefix != "" && '/' !in prefix
    ensures LayoutUnder(prefix, pdfName) == Layout(pdfName, prefix + "/" + pdfName, prefix + "/" + ResultObjectName)
  {
    JoinKeyPlain(prefix, pdfName);
    JoinKeyPlain(prefix, ResultObjectName);
  }

  // ---- one object ----

  /** `_convert_object(bucket, key)` with the names it derives given as
      `lay`: read, render, write the PDF, then write the marker. */
  function ProcessAt(w: World, bucket: string, key: string, lay: Layout,
                     render: seq<byte> -> Option<seq<byte>>): (r: (Result<Outcome>, World))
    ensures r.0.Ok? ==> r.0.value.source == S3Uri(bucket, key)
  {
    match ReadBinary(w, bucket, key)
    case Err(e) => (Err(e), w)
    case Ok(bytes) =>
      if bytes == [] then (Err(WorkbookEmpty), w)
      else match render(bytes)
        case None => (Err(RenderFailed), w)
        case Some(pdf) =>
          var (written, w1) := Put(w, bucket, lay.pdfKey, pdf);
          if written.Err? then (Err(PdfWriteFailed), w1)
          else
            var (marked, w2) := Put(w1, bucket, lay.markerKey, Utf8.Encode(lay.pdfName));
            if marked.Err? then (Err(MarkerWriteFailed), w2)
            else (Ok(Outcome(S3Uri(bucket, key), S3Uri(bucket, lay.pdfKey), S3Uri(bucket, lay.markerKey))), w2)
  }

  /** `_convert_object(bucket, key)` as a step of the store. */
  function Process(w: World, bucket: string, key: string, render: seq<byte> -> Option<seq<byte>>): (r: (Result<Outcome>, World))
    ensures r.0.Ok? ==> r.0.value.source == S3Uri(bucket, key)
  {
    ProcessAt(w, bucket, key, JobLayout(key), render)
  }

  /** The steps of `_convert_object` on the store. */
  method ConvertAt(store: ObjectStore, bucket: string, key: string, lay: Layout,
                   render: seq<byte> -> Option<seq<byte>>) returns (r: Result<Outcome>)
    modifies store
    ensures (r, store.State()) == ProcessAt(old(store.State()), bucket, key, lay, render)
  {
    var read := ReadBinaryObject(store, bucket, key);
    if read.Err? {
      return Err(read.error);
    }
    if read.value == [] {
      return Err(WorkbookEmpty);
    }
    var pdf := render(read.value);
    if pdf.None? {
      return Err(RenderFailed);
    }
    var written := store.PutObject(bucket, lay.pdfKey, pdf.value);
    if written.Err? {
      return Err(PdfWriteFailed);
    }
    var marked := store.PutObject(bucket, lay.markerKey, Utf8.Encode(lay.pdfName));
    if marked.Err? {
      return Err(MarkerWriteFailed);
    }
    return Ok(Outcome(S3Uri(bucket, key), S3Uri(bucket, lay.pdfKey), S3Uri(bucket, lay.markerKey)));
  }

  /** `_convert_object` on the store. */
  method ConvertObject(store: ObjectStore, bucket: string, key: string, render: seq<byte> -> Option<seq<byte>>)
    returns (r: Result<Outcome>)
    modifies store
    ensures (r, store.State()) == Process(old(store.State()), bucket, key, render)
  {
    r := ConvertAt(store, bucket, key, JobLayout(key), render);
  }

  /** What processing does, outcome by outcome. A missing or empty source or
      a failed rendering changes nothing. Otherwise the PDF is written
      first; if that is refused nothing is stored; if the marker is refused
      only the PDF is stored; on success the PDF holds the rendering and the
      marker the UTF-8 bytes of the PDF's name, and no other object
      changes. */
  lemma ProcessOutcome(w: World, bucket: string, key: string, lay: Layout, render: seq<byte> -> Option<seq<byte>>)
    ensures var (r, w') := ProcessAt(w, bucket, key, lay, render);
      w'.denied == w.denied &&
      (!Exists(w, bucket, key) ==> r == Err(ObjectUnreadable) && w' == w) &&
      (Exists(w, bucket, key) && w.buckets[bucket][key] == [] ==> r == Err(WorkbookEmpty) && w' == w) &&
      (Exists(w, bucket, key) && w.buckets[bucket][key] != [] && render(w.buckets[bucket][key]).None? ==>
         r == Err(RenderFailed) && w' == w) &&
      (Exists(w, bucket, key) && w.buckets[bucket][key] != [] && render(w.buckets[bucket][key]).Some? ==>
         var pdf := render(w.buckets[bucket][key]).value;
         var m := w.buckets[bucket];
         ((bucket, lay.pdfKey) in w.denied ==>
            r == Err(PdfWriteFailed) && w'.buckets == w.buckets &&
            w'.log == w.log + [PutObject(bucket, lay.pdfKey)]) &&
         ((bucket, lay.pdfKey) !in w.denied && (bucket, lay.markerKey) in w.denied ==>
            r == Err(MarkerWriteFailed) &&
            w'.buckets == w.buckets[bucket := m[lay.pdfKey := pdf]] &&
            w'.log == w.log + [PutObject(bucket, lay.pdfKey), PutObject(bucket, lay.markerKey)]) &&
         ((bucket, lay.pdfKey) !in w.denied && (bucket, lay.markerKey) !in w.denied ==>
            r == Ok(Outcome(S3Uri(bucket, key), S3Uri(bucket, lay.pdfKey), S3Uri(bucket, lay.markerKey))) &&
            w'.buckets == w.buckets[bucket := m[lay.pdfKey := pdf][lay.markerKey := Utf8.Encode(lay.pdfName)]] &&
            w'.log == w.log + [PutObject(bucket, lay.pdfKey), PutObject(bucket, lay.markerKey)]))
  {
  }

  /** A failed run never leaves a new marker behind: the marker object is
      as it was before. */
  lemma ProcessFailureKeepsMarker(w: World, bucket: string, key: string, lay: Layout,
                                  render: seq<byte> -> Option<seq<byte>>)
    requires Separate(key, lay)
    ensures var (r, w') := ProcessAt(w, bucket, key, lay, render);
      r.Err? ==>
        (bucket in w'.buckets <==> bucket in w.buckets) &&
        (bucket in w.buckets ==>
           (lay.markerKey in w'.buckets[bucket] <==> lay.markerKey in w.buckets[bucket]) &&
           (lay.markerKey in w.buckets[bucket] ==> w'.buckets[bucket][lay.markerKey] == w.buckets[bucket][lay.markerKey]))
  {
    ProcessOutcome(w, bucket, key, lay, render);
  }

  /** Processing the same object again, after it succeeded, stores the same
      objects again and answers the same. */
  lemma ProcessTwice(w: World, bucket: string, key: string, lay: Layout, render: seq<byte> -> Option<seq<byte>>)
    requires Separate(key, lay)
    requires ProcessAt(w, bucket, key, lay, render).0.Ok?
    ensures var (r1, w1) := ProcessAt(w, bucket, key, lay, render);
      var (r2, w2) := ProcessAt(w1, bucket, key, lay, render);
      r2 == r1 && w2.buckets == w1.buckets
  {
    ProcessOutcome(w, bucket, key, lay, render);
    var w1 := ProcessAt(w, bucket, key, lay, render).1;
    assert w1.buckets[bucket][key] == w.buckets[bucket][key];
    ProcessOutcome(w1, bucket, key, lay, render);
    var m1 := w1.buckets[bucket];
    var pdf := render(w.buckets[bucket][key]).value;
    assert m1[lay.pdfKey := pdf][lay.markerKey := Utf8.Encode(lay.pdfName)] == m1;
  }

  /** Processing a workbook is idempotent. */
  lemma ProcessIdempotent(w: World, bucket: string, key: string, render: seq<byte> -> Option<seq<byte>>)
    requires HasXlsxSuffix(key)
    requires Process(w, bucket, key, render).0.Ok?
    ensures var (r1, w1) := Process(w, bucket, key, render);
      var (r2, w2) := Process(w1, bucket, key, render);
      r2 == r1 && w2.buckets == w1.buckets
  {
    JobLayoutSeparate(key);
    ProcessTwice(w, bucket, key, JobLayout(key), render);
  }

  // ---- the notification handler ----

  /** The `(bucket, key)` a record asks to convert, or nothing when the
      record is skipped: not from S3, no bucket or key, or a decoded key
      that does not end in `.xlsx` in any case. */
  function Selected(rec: EventRecord, unquote: string -> string): (r: Option<(string, string)>)
    ensures r.Some? <==>
      rec.eventSource == Some("aws:s3") &&
      rec.bucket.Some? && rec.bucket.value != "" && rec.rawKey.Some? && rec.rawKey.value != "" &&
      HasXlsxSuffix(unquote(rec.rawKey.value))
    ensures r.Some? ==> r.value == (rec.bucket.value, unquote(rec.rawKey.value))
  {
    if rec.eventSource != Some("aws:s3") then None
    else if rec.bucket.None? || rec.bucket.value == "" || rec.rawKey.None? || rec.rawKey.value == "" then None
    else
      var key := unquote(rec.rawKey.value);
      if !HasXlsxSuffix(key) then None else Some((rec.bucket.value, key))
  }

  /** The objects the records ask to convert, in order. */
  function Selection(records: seq<EventRecord>, unquote: string -> string): (r: seq<(string, string)>)
    ensures |r| <= |records|
    ensures forall i :: 0 <= i < |r| ==> HasXlsxSuffix(r[i].1)
  {
    if records == [] then []
    else
      var last := records[|records| - 1];
      var init := Selection(records[..|records| - 1], unquote);
      match Selected(last, unquote)
      case None => init
      case Some(target) => init + [target]
  }

  /** One record's turn: a skipped record changes nothing; a selected one
      is processed and its outcome appended to those so far. */
  function ConvertStep(w: World, done: seq<Outcome>, rec: EventRecord, unquote: string -> string,
                       render: seq<byte> -> Option<seq<byte>>): (Result<seq<Outcome>>, World)
  {
    match Selected(rec, unquote)
    case None => (Ok(done), w)
    case Some((bucket, key)) =>
      var (r, w1) := Process(w, bucket, key, render);
      if r.Err? then (Err(r.error), w1) else (Ok(done + [r.value]), w1)
  }

  /** The records processed one after the other, stopping at the first
      failure, which the handler lets escape. */
  function ConvertAll(w: World, records: seq<EventRecord>, unquote: string -> string,
                      render: seq<byte> -> Option<seq<byte>>): (Result<seq<Outcome>>, World)
  {
    if records == [] then (Ok([]), w)
    else
      var (done, w1) := ConvertAll(w, records[..|records| - 1], unquote, render);
      if done.Err? then (done, w1)
      else ConvertStep(w1, done.value, records[|records| - 1], unquote, render)
  }

  /** `lambda_handler(event)` as a step of the store: a `Records` value that
      is not a list fails. */
  function HandleEvent(w: World, records: Option<seq<EventRecord>>, unquote: string -> string,
                       render: seq<byte> -> Option<seq<byte>>): (Result<Summary>, World)
  {
    if records.None? then (Err(RecordsMissing), w)
    else
      var (r, w') := ConvertAll(w, records.value, unquote, render);
      if r.Err? then (Err(r.error), w') else (Ok(Summary("ok", |r.value|, r.value)), w')
  }

  /** A successful run reports one outcome per selected record, in order,
      each naming the selected object as its source; skipped records are
      not counted. */
  lemma {:induction false} ConvertAllReports(w: World, records: seq<EventRecord>, unquote: string -> string,
                                             render: seq<byte> -> Option<seq<byte>>)
    requires ConvertAll(w, records, unquote, render).0.Ok?
    ensures var outs := ConvertAll(w, records, unquote, render).0.value;
      var targets := Selection(records, unquote);
      |outs| == |targets| &&
      forall i :: 0 <= i < |outs| ==> outs[i].source == S3Uri(targets[i].0, targets[i].1)
  {
    if records != [] {
      var init := records[..|records| - 1];
      ConvertAllReports(w, init, unquote, render);
    }
  }

  /** `lambda_handler` on the store. */
  method HandleS3Event(store: ObjectStore, records: Option<seq<EventRecord>>, unquote: string -> string,
                       render: seq<byte> -> Option<seq<byte>>) returns (r: Result<Summary>)
    modifies store
    ensures (r, store.State()) == HandleEvent(old(store.State()), records, unquote, render)
  {
    if records.None? {
      return Err(RecordsMissing);
    }
    ghost var w0 := store.State();
    var rs := records.value;
    var outcomes: seq<Outcome> := [];
    var i := 0;
    while i < |rs|
      invariant 0 <= i <= |rs|
      invariant (Ok(outcomes), store.State()) == ConvertAll(w0, rs[..i], unquote, render)
    {
      assert rs[..i + 1][..i] == rs[..i];
      var step := HandleRecord(store, outcomes, rs[i], unquote, render);
      if step.Err? {
        ConvertAllStops(w0, rs, i + 1, unquote, render);
        return Err(step.error);
      }
      outcomes := step.value;
      i := i + 1;
    }
    assert rs[..i] == rs;
    return Ok(Summary("ok", |outcomes|, outcomes));
  }

  /** The loop body of `lambda_handler`: skip the record or convert it. */
  method HandleRecord(store: ObjectStore, done: seq<Outcome>, rec: EventRecord, unquote: string -> string,
                      render: seq<byte> -> Option<seq<byte>>) returns (r: Result<seq<Outcome>>)
    modifies store
    ensures (r, store.State()) == ConvertStep(old(store.State()), done, rec, unquote, render)
  {
    var target := Selected(rec, unquote);
    if target.None? {
      return Ok(done);
    }
    var outcome := ConvertObject(store, target.value.0, target.value.1, render);
    if outcome.Err? {
      return Err(outcome.error);
    }
    return Ok(done + [outcome.value]);
  }

  /** A failure stops the run: the later records do not change its
      outcome. */
  lemma {:induction false} ConvertAllStops(w: World, records: seq<EventRecord>, n: nat, unquote: string -> string,
                                           render: seq<byte> -> Option<seq<byte>>)
    requires n <= |records|
    requires ConvertAll(w, records[..n], unquote, render).0.Err?
    ensures ConvertAll(w, records, unquote, render) == ConvertAll(w, records[..n], unquote, render)
    decreases |records|
  {
    if n < |records| {
      var init := records[..|records| - 1];
      assert init[..n] == records[..n];
      ConvertAllStops(w, init, n, unquote, render);
    } else {
      assert records[..n] == records;
    }
  }
}
