/** The submit API of `src/submit_handler.py`: a workbook is validated,
    fingerprinted, and stored as `{hash}/{filename}` in the default bucket
    after everything previously under `{hash}/` has been pruned. The hash is
    the job's identifier. */
module Submit {
  import opened Wrappers
  import opened Text
  import opened Keys
  import opened Store
  import opened Common

  /** The request fields the handler reads. A field that is absent or JSON
      `null` is `None`. */
  datatype SubmitRequest = SubmitRequest(filename: Option<string>, format: Option<string>, data: Option<string>)

  /** `DEFAULT_TARGET_BUCKET` and `SOURCE_BUCKET`. */
  datatype Environment = Environment(defaultTargetBucket: Option<string>, sourceBucket: Option<string>)

  /** The 202 response and its JSON body. */
  datatype Submitted = Submitted(statusCode: int, filename: string, status: string, result: string)

  /** `payload.get("format") or ""`. */
  function FormatField(format: Option<string>): string {
    if format.None? then "" else format.value
  }

  /** The checks made before the store is touched, in the order the handler
      makes them: a filename that sanitizes to a non-empty name, a format
      that lower-cases to `xlsx`, and non-empty data. Gives the sanitized
      filename and the data. */
  function Validate(req: SubmitRequest): (r: Result<(string, string)>)
    ensures r.Ok? <==>
      SanitizeFilename(req.filename).Ok? && SanitizeFilename(req.filename).value != "" &&
      Lower(FormatField(req.format)) == SupportedInputFormat &&
      req.data.Some? && req.data.value != ""
    ensures r.Ok? ==> r.value == (SanitizeFilename(req.filename).value, req.data.value)
    ensures r.Ok? ==> '/' !in r.value.0 && HasXlsxSuffix(r.value.0)
    ensures SanitizeFilename(req.filename).Err? ==> r == Err(FilenameNotXlsx)
    ensures SanitizeFilename(req.filename) == Ok("") ==> r == Err(FilenameMissing)
    ensures (SanitizeFilename(req.filename).Ok? && SanitizeFilename(req.filename).value != "" &&
             Lower(FormatField(req.format)) != SupportedInputFormat) ==> r == Err(UnsupportedFormat)
  {
    match SanitizeFilename(req.filename)
    case Err(e) => Err(e)
    case Ok(filename) =>
      if filename == "" then Err(FilenameMissing)
      else if Lower(FormatField(req.format)) != SupportedInputFormat then Err(UnsupportedFormat)
      else if req.data.None? || req.data.value == "" then Err(DataMissing)
      else Ok((filename, req.data.value))
  }

  /** `lambda_handler` as a step of the store. */
  function SubmitSpec(w: World, req: SubmitRequest, env: Environment,
                      fingerprint: seq<byte> -> Digest, b64decode: string -> Option<seq<byte>>): (Result<Submitted>, World)
  {
    match Validate(req)
    case Err(e) => (Err(e), w)
    case Ok((filename, data)) =>
      match DefaultBucket(env.defaultTargetBucket)
      case Err(e) => (Err(e), w)
      case Ok(bucket) =>
        match LoadWorkbookBytes(w, data, env.sourceBucket, b64decode)
        case Err(e) => (Err(e), w)
        case Ok((bytes, _)) => StoreJob(w, bucket, fingerprint(bytes), filename, bytes)
  }

  /** The writes of a submission: prune `hash/`, then put the source object. */
  function StoreJob(w: World, bucket: string, hash: string, filename: string, bytes: seq<byte>): (Result<Submitted>, World) {
    var (pruned, w1) := Prune(w, bucket, hash);
    if pruned.Err? then (Err(pruned.error), w1)
    else
      var (stored, w2) := Put(w1, bucket, BuildObjectKey(hash, filename), bytes);
      if stored.Err? then (Err(WorkbookStoreFailed), w2)
      else (Ok(Submitted(202, filename, "submitted", hash)), w2)
  }

  /** `lambda_handler` on the store: prune, then put. */
  method SubmitJob(store: ObjectStore, req: SubmitRequest, env: Environment,
                   fingerprint: seq<byte> -> Digest, b64decode: string -> Option<seq<byte>>)
    returns (r: Result<Submitted>)
    modifies store
    ensures (r, store.State()) == SubmitSpec(old(store.State()), req, env, fingerprint, b64decode)
  {
    var valid := Validate(req);
    if valid.Err? {
      return Err(valid.error);
    }
    var filename := valid.value.0;
    var bucket := DefaultBucket(env.defaultTargetBucket);
    if bucket.Err? {
      return Err(bucket.error);
    }
    var loaded := LoadWorkbook(store, valid.value.1, env.sourceBucket, b64decode);
    if loaded.Err? {
      return Err(loaded.error);
    }
    var bytes := loaded.value.0;
    var hash := fingerprint(bytes);
    var pruned := DeletePrefixContents(store, bucket.value, hash);
    if pruned.Err? {
      return Err(pruned.error);
    }
    var stored := store.PutObject(bucket.value, BuildObjectKey(hash, filename), bytes);
    if stored.Err? {
      return Err(WorkbookStoreFailed);
    }
    return Ok(Submitted(202, filename, "submitted", hash));
  }

  // ---- what a submission does ----

  /** The bucket after a successful submission: nothing left under `hash/`
      but the new source object. */
  function AfterSubmit(m: Bucket, hash: string, filename: string, bytes: seq<byte>): Bucket {
    Pruned(m, hash + "/")[hash + "/" + filename := bytes]
  }

  /** Under `hash/` there is exactly the source object, holding the workbook;
      every key outside `hash/` is present and holds what it held before. */
  lemma AfterSubmitContents(m: Bucket, hash: string, filename: string, bytes: seq<byte>)
    ensures var m' := AfterSubmit(m, hash, filename, bytes);
      (forall k :: k in m' && StartsWith(k, hash + "/") <==> k == hash + "/" + filename) &&
      m'[hash + "/" + filename] == bytes &&
      (forall k :: !StartsWith(k, hash + "/") ==> (k in m' <==> k in m)) &&
      (forall k :: k in m && !StartsWith(k, hash + "/") ==> m'[k] == m[k])
  {
    var key := hash + "/" + filename;
    assert key[..|hash + "/"|] == hash + "/";
  }

  /** Submitting again the same workbook under the same name changes
      nothing more. */
  lemma {:induction false} AfterSubmitIdempotent(m: Bucket, hash: string, filename: string, bytes: seq<byte>)
    ensures AfterSubmit(AfterSubmit(m, hash, filename, bytes), hash, filename, bytes) == AfterSubmit(m, hash, filename, bytes)
  {
    var once := AfterSubmit(m, hash, filename, bytes);
    AfterSubmitContents(m, hash, filename, bytes);
    AfterSubmitContents(once, hash, filename, bytes);
    assert Pruned(once, hash + "/") == Pruned(m, hash + "/");
  }

  /** A digest stripped of slashes is itself, so the pruned prefix is
      `hash/`. */
  lemma DigestPrefix(hash: Digest)
    ensures StripSlashes(hash) == hash && hash != "" && '/' !in hash
  {
    DigestIsPlain(hash);
    StripSlashesFixpoint(hash);
  }

  /** Once the request is valid, the default bucket configured and the
      workbook loaded: the submission succeeds exactly when the bucket exists
      and neither the old job's objects nor the new source object refuse
      writes; on success the job is reset to its source object alone and
      the response carries the fingerprint; a missing bucket fails the prune
      and changes nothing; a refused delete fails with the prefix partly
      pruned; a refused final write leaves the prefix pruned. */
  lemma SubmitOutcome(w: World, req: SubmitRequest, env: Environment,
                      fingerprint: seq<byte> -> Digest, b64decode: string -> Option<seq<byte>>,
                      filename: string, data: string, bucket: string, bytes: seq<byte>, source: string)
    requires Validate(req) == Ok((filename, data))
    requires DefaultBucket(env.defaultTargetBucket) == Ok(bucket)
    requires LoadWorkbookBytes(w, data, env.sourceBucket, b64decode) == Ok((bytes, source))
    ensures var (r, w') := SubmitSpec(w, req, env, fingerprint, b64decode);
      var hash := fingerprint(bytes);
      w'.denied == w.denied &&
      (r.Ok? <==> bucket in w.buckets && Deletable(w, bucket, hash + "/") &&
                  (bucket, hash + "/" + filename) !in w.denied) &&
      (r.Ok? ==> r.value == Submitted(202, filename, "submitted", hash) &&
                 w'.buckets == w.buckets[bucket := AfterSubmit(w.buckets[bucket], hash, filename, bytes)]) &&
      (bucket !in w.buckets ==> r == Err(PruneListFailed) && w' == w) &&
      (bucket in w.buckets && !Deletable(w, bucket, hash + "/") ==>
         r == Err(DeleteFailed) && bucket in w'.buckets &&
         w'.buckets == w.buckets[bucket := w'.buckets[bucket]] &&
         PartlyPruned(w.buckets[bucket], w'.buckets[bucket], hash + "/", bucket, w.denied)) &&
      (r.Err? && bucket in w.buckets && Deletable(w, bucket, hash + "/") ==>
         r.error == WorkbookStoreFailed &&
         w'.buckets == w.buckets[bucket := Pruned(w.buckets[bucket], hash + "/")])
  {
    var hash: string := fingerprint(bytes);
    DigestPrefix(hash);
    StoreJobOutcome(w, bucket, hash, filename, bytes);
  }

  lemma StoreJobOutcome(w: World, bucket: string, hash: string, filename: string, bytes: seq<byte>)
    requires StripSlashes(hash) == hash && hash != "" && '/' !in hash
    ensures var (r, w') := StoreJob(w, bucket, hash, filename, bytes);
      w'.denied == w.denied &&
      (r.Ok? <==> bucket in w.buckets && Deletable(w, bucket, hash + "/") &&
                  (bucket, hash + "/" + filename) !in w.denied) &&
      (r.Ok? ==> r.value == Submitted(202, filename, "submitted", hash) &&
                 w'.buckets == w.buckets[bucket := AfterSubmit(w.buckets[bucket], hash, filename, bytes)]) &&
      (bucket !in w.buckets ==> r == Err(PruneListFailed) && w' == w) &&
      (bucket in w.buckets && !Deletable(w, bucket, hash + "/") ==>
         r == Err(DeleteFailed) && bucket in w'.buckets &&
         w'.buckets == w.buckets[bucket := w'.buckets[bucket]] &&
         PartlyPruned(w.buckets[bucket], w'.buckets[bucket], hash + "/", bucket, w.denied)) &&
      (r.Err? && bucket in w.buckets && Deletable(w, bucket, hash + "/") ==>
         r.error == WorkbookStoreFailed &&
         w'.buckets == w.buckets[bucket := Pruned(w.buckets[bucket], hash + "/")])
  {
    if bucket !in w.buckets {
      PruneEffect(w, bucket, hash);
    } else if Deletable(w, bucket, hash + "/") {
      StoreJobPruned(w, bucket, hash, filename, bytes);
    } else {
      StoreJobRefused(w, bucket, hash, filename, bytes);
    }
  }

  lemma StoreJobPruned(w: World, bucket: string, hash: string, filename: string, bytes: seq<byte>)
    requires StripSlashes(hash) == hash && hash != "" && '/' !in hash
    requires bucket in w.buckets && Deletable(w, bucket, hash + "/")
    ensures var (r, w') := StoreJob(w, bucket, hash, filename, bytes);
      w'.denied == w.denied &&
      (r.Ok? <==> (bucket, hash + "/" + filename) !in w.denied) &&
      (r.Ok? ==> r.value == Submitted(202, filename, "submitted", hash) &&
                 w'.buckets == w.buckets[bucket := AfterSubmit(w.buckets[bucket], hash, filename, bytes)]) &&
      (r.Err? ==> r.error == WorkbookStoreFailed &&
                  w'.buckets == w.buckets[bucket := Pruned(w.buckets[bucket], hash + "/")])
  {
    PruneEffect(w, bucket, hash);
    assert BuildObjectKey(hash, filename) == hash + "/" + filename;
  }

  lemma StoreJobRefused(w: World, bucket: string, hash: string, filename: string, bytes: seq<byte>)
    requires StripSlashes(hash) == hash && hash != "" && '/' !in hash
    requires bucket in w.buckets && !Deletable(w, bucket, hash + "/")
    ensures var (r, w') := StoreJob(w, bucket, hash, filename, bytes);
      r == Err(DeleteFailed) && w'.denied == w.denied && bucket in w'.buckets &&
      w'.buckets == w.buckets[bucket := w'.buckets[bucket]] &&
      PartlyPruned(w.buckets[bucket], w'.buckets[bucket], hash + "/", bucket, w.denied)
  {
    PruneRefused(w, bucket, hash);
  }

  /** A failed submission leaves the store as it was, except when a delete
      or the final write is refused: some or all of the old job is gone by
      then. */
  lemma SubmitFailureLeavesStore(w: World, req: SubmitRequest, env: Environment,
                                 fingerprint: seq<byte> -> Digest, b64decode: string -> Option<seq<byte>>)
    ensures var (r, w') := SubmitSpec(w, req, env, fingerprint, b64decode);
      r.Err? && r.error != WorkbookStoreFailed && r.error != DeleteFailed ==> w' == w
  {
    if Validate(req).Ok? {
      var (filename, data) := Validate(req).value;
      if DefaultBucket(env.defaultTargetBucket).Ok? {
        var bucket := DefaultBucket(env.defaultTargetBucket).value;
        var loaded := LoadWorkbookBytes(w, data, env.sourceBucket, b64decode);
        if loaded.Ok? {
          SubmitOutcome(w, req, env, fingerprint, b64decode, filename, data, bucket, loaded.value.0, loaded.value.1);
        }
      }
    }
  }

  /** Submitting the same request twice leaves the buckets as submitting it
      once, and answers the same, provided the workbook reads the same the
      second time (it always does for inline data). */
  lemma SubmitTwice(w: World, req: SubmitRequest, env: Environment,
                    fingerprint: seq<byte> -> Digest, b64decode: string -> Option<seq<byte>>)
    requires req.data.Some?
    requires SubmitSpec(w, req, env, fingerprint, b64decode).0.Ok?
    requires LoadWorkbookBytes(SubmitSpec(w, req, env, fingerprint, b64decode).1, req.data.value, env.sourceBucket, b64decode)
          == LoadWorkbookBytes(w, req.data.value, env.sourceBucket, b64decode)
    ensures var (r1, w1) := SubmitSpec(w, req, env, fingerprint, b64decode);
      var (r2, w2) := SubmitSpec(w1, req, env, fingerprint, b64decode);
      r2 == r1 && w2.buckets == w1.buckets
  {
    var w1 := SubmitSpec(w, req, env, fingerprint, b64decode).1;
    var filename := Validate(req).value.0;
    var bucket := DefaultBucket(env.defaultTargetBucket).value;
    var bytes := LoadWorkbookBytes(w, req.data.value, env.sourceBucket, b64decode).value.0;
    var hash: string := fingerprint(bytes);
    assert SubmitSpec(w, req, env, fingerprint, b64decode) == StoreJob(w, bucket, hash, filename, bytes);
    assert SubmitSpec(w1, req, env, fingerprint, b64decode) == StoreJob(w1, bucket, hash, filename, bytes);
    DigestPrefix(fingerprint(bytes));
    StoreJobTwice(w, bucket, hash, filename, bytes);
  }

  lemma StoreJobTwice(w: World, bucket: string, hash: string, filename: string, bytes: seq<byte>)
    requires StripSlashes(hash) == hash && hash != "" && '/' !in hash
    requires StoreJob(w, bucket, hash, filename, bytes).0.Ok?
    ensures var (r1, w1) := StoreJob(w, bucket, hash, filename, bytes);
      var (r2, w2) := StoreJob(w1, bucket, hash, filename, bytes);
      r2 == r1 && w2.buckets == w1.buckets
  {
    var w1 := StoreJob(w, bucket, hash, filename, bytes).1;
    StoreJobOutcome(w, bucket, hash, filename, bytes);
    StoreJobOutcome(w1, bucket, hash, filename, bytes);
    AfterSubmitIdempotent(w.buckets[bucket], hash, filename, bytes);
  }
}
