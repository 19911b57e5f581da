/** The store-facing helpers of `src/common.py`: the default bucket, reading
    a workbook, pruning a prefix in batches of at most 1000 keys, and finding
    the source workbook of a job. */
module Common {
  import opened Wrappers
  import opened Text
  import opened PosixPath
  import opened Keys
  import opened Store
  import Lex
  import Utf8

  /** `get_default_bucket()`: the configured bucket, which must be set and
      not empty. */
  function DefaultBucket(configured: Option<string>): (r: Result<string>)
    ensures r.Ok? <==> configured.Some? && configured.value != ""
    ensures r.Ok? ==> r.value == configured.value
    ensures r.Err? ==> r.error == DefaultBucketNotConfigured
  {
    if configured.None? || configured.value == "" then Err(DefaultBucketNotConfigured)
    else Ok(configured.value)
  }

  // ---- reading the workbook ----

  /** `load_workbook_bytes(data, default_bucket)`: an `s3://` URI is read from
      the store; a path starting with `/` is read from the source bucket when
      one is configured; anything else is base64. The bytes are never empty. */
  function LoadWorkbookBytes(w: World, data: string, sourceBucket: Option<string>,
                             b64decode: string -> Option<seq<byte>>): (r: Result<(seq<byte>, string)>)
    ensures r.Ok? ==> r.value.0 != []
    ensures r.Err? ==> r.error in {InvalidS3Uri, SourceUnreadable, WorkbookEmpty, PayloadNotBase64}
    ensures StartsWith(data, "s3://") ==>
      match ParseS3Uri(data)
      case Err(_) => r == Err(InvalidS3Uri)
      case Ok((b, k)) =>
        match ReadObject(w, b, k)
        case None => r == Err(SourceUnreadable)
        case Some(body) => r == (if body == [] then Err(WorkbookEmpty) else Ok((body, data)))
    ensures !StartsWith(data, "s3://") && !(StartsWith(data, "/") && DefaultBucket(sourceBucket).Ok?) ==>
      match b64decode(data)
      case None => r == Err(PayloadNotBase64)
      case Some(bytes) => r == (if bytes == [] then Err(WorkbookEmpty) else Ok((bytes, "inline")))
    decreases if StartsWith(data, "s3://") then 0 else 1
  {
    if StartsWith(data, "s3://") then
      match ParseS3Uri(data)
      case Err(e) => Err(e)
      case Ok((bucket, key)) =>
        match ReadObject(w, bucket, key)
        case None => Err(SourceUnreadable)
        case Some(body) => if body == [] then Err(WorkbookEmpty) else Ok((body, data))
    else if StartsWith(data, "/") && DefaultBucket(sourceBucket).Ok? then
      var uri := "s3://" + sourceBucket.value + data;
      assert uri[..5] == "s3://";
      LoadWorkbookBytes(w, uri, sourceBucket, b64decode)
    else
      match b64decode(data)
      case None => Err(PayloadNotBase64)
      case Some(bytes) => if bytes == [] then Err(WorkbookEmpty) else Ok((bytes, "inline"))
  }

  /** A leading `/` names a key in the source bucket: the same as giving the
      full `s3://` URI. */
  lemma LoadFromSourceBucket(w: World, path: string, sourceBucket: string, b64decode: string -> Option<seq<byte>>)
    requires StartsWith(path, "/") && sourceBucket != "" && '/' !in sourceBucket
    ensures LoadWorkbookBytes(w, path, Some(sourceBucket), b64decode)
         == (var key := path[1..];
             match ReadObject(w, sourceBucket, key)
             case None => Err(SourceUnreadable)
             case Some(body) =>
               if body == [] then Err(WorkbookEmpty) else Ok((body, "s3://" + sourceBucket + path)))
  {
    var uri := "s3://" + sourceBucket + path;
    assert path == "/" + path[1..];
    assert uri == "s3://" + sourceBucket + "/" + path[1..];
    assert !StartsWith(path, "s3://") by { assert path[0] == '/'; }
    ParseS3UriRoundTrip(sourceBucket, path[1..]);
  }

  /** `load_workbook_bytes` against the store: the one `get_object` it may
      make is a call on `store`, and nothing is written. */
  method LoadWorkbook(store: ObjectStore, data: string, sourceBucket: Option<string>,
                      b64decode: string -> Option<seq<byte>>) returns (r: Result<(seq<byte>, string)>)
    ensures r == LoadWorkbookBytes(store.State(), data, sourceBucket, b64decode)
    decreases if StartsWith(data, "s3://") then 0 else 1
  {
    if StartsWith(data, "s3://") {
      var parsed := ParseS3Uri(data);
      if parsed.Err? {
        return Err(parsed.error);
      }
      var body := store.GetObject(parsed.value.0, parsed.value.1);
      if body.None? {
        return Err(SourceUnreadable);
      }
      if body.value == [] {
        return Err(WorkbookEmpty);
      }
      return Ok((body.value, data));
    }
    if StartsWith(data, "/") && DefaultBucket(sourceBucket).Ok? {
      var uri := "s3://" + sourceBucket.value + data;
      assert uri[..5] == "s3://";
      r := LoadWorkbook(store, uri, sourceBucket, b64decode);
      return;
    }
    var decoded := b64decode(data);
    if decoded.None? {
      return Err(PayloadNotBase64);
    }
    if decoded.value == [] {
      return Err(WorkbookEmpty);
    }
    return Ok((decoded.value, "inline"));
  }

  /** Data that is neither an `s3://` URI nor a source-bucket path is
      decoded in place: its outcome does not depend on the store. */
  lemma InlineLoadIgnoresStore(w: World, w': World, data: string, sourceBucket: Option<string>,
                               b64decode: string -> Option<seq<byte>>)
    requires !StartsWith(data, "s3://") && !StartsWith(data, "/")
    ensures LoadWorkbookBytes(w, data, sourceBucket, b64decode) == LoadWorkbookBytes(w', data, sourceBucket, b64decode)
  {
  }

  // ---- reading single objects ----

  /** `read_binary_object(bucket, key)`: the body, or a wrapped failure when
      there is no such object. */
  function ReadBinary(w: World, bucket: string, key: string): (r: Result<seq<byte>>)
    ensures r.Ok? <==> Exists(w, bucket, key)
    ensures r.Ok? ==> r.value == w.buckets[bucket][key]
    ensures r.Err? ==> r.error == ObjectUnreadable
  {
    match ReadObject(w, bucket, key)
    case None => Err(ObjectUnreadable)
    case Some(body) => Ok(body)
  }

  /** `read_text_object(bucket, key)`: the body read as strict UTF-8. The
      text is the one whose encoding is stored. */
  function ReadText(w: World, bucket: string, key: string): (r: Result<string>)
    ensures r.Ok? ==> Exists(w, bucket, key) && Utf8.Encode(r.value) == w.buckets[bucket][key]
    ensures !Exists(w, bucket, key) ==> r == Err(ObjectUnreadable)
    ensures Exists(w, bucket, key) && r.Err? ==> r.error == NotUtf8 && Utf8.Decode(w.buckets[bucket][key]).None?
  {
    match ReadBinary(w, bucket, key)
    case Err(e) => Err(e)
    case Ok(body) =>
      match Utf8.Decode(body)
      case None => Err(NotUtf8)
      case Some(text) =>
        Utf8.EncodeDecode(body);
        Ok(text)
  }

  method ReadBinaryObject(store: ObjectStore, bucket: string, key: string) returns (r: Result<seq<byte>>)
    ensures r == ReadBinary(store.State(), bucket, key)
  {
    var body := store.GetObject(bucket, key);
    if body.None? {
      return Err(ObjectUnreadable);
    }
    return Ok(body.value);
  }

  method ReadTextObject(store: ObjectStore, bucket: string, key: string) returns (r: Result<string>)
    ensures r == ReadText(store.State(), bucket, key)
  {
    var body := ReadBinaryObject(store, bucket, key);
    if body.Err? {
      return Err(body.error);
    }
    var text := Utf8.Decode(body.value);
    if text.None? {
      return Err(NotUtf8);
    }
    return Ok(text.value);
  }

  /** `object_exists(bucket, key)`: a `head_object` whose 404 means "absent". */
  method ObjectExists(store: ObjectStore, bucket: string, key: string) returns (found: bool)
    ensures found == Exists(store.State(), bucket, key)
  {
    found := store.HeadObject(bucket, key);
  }

  // ---- deleting in batches ----

  /** The batches `_delete_object_batch` sends: the keys in order, 1000 at a
      time, the last batch holding what is left. */
  function Chunks(keys: seq<string>): seq<seq<string>>
    decreases |keys|
  {
    if keys == [] then []
    else if |keys| <= 1000 then [keys]
    else [keys[..1000]] + Chunks(keys[1000..])
  }

  function Flatten(batches: seq<seq<string>>): seq<string> {
    if batches == [] then [] else batches[0] + Flatten(batches[1..])
  }

  /** Every batch holds 1 to 1000 keys, the batches put back together give
      the keys in their order (so each key is sent exactly as often as it is
      listed), and there are as few batches as the limit allows. */
  lemma {:induction false} ChunksPartition(keys: seq<string>)
    ensures forall i :: 0 <= i < |Chunks(keys)| ==> 1 <= |Chunks(keys)[i]| <= 1000
    ensures Flatten(Chunks(keys)) == keys
    ensures |Chunks(keys)| == (|keys| + 1000 - 1) / 1000
    decreases |keys|
  {
    if |keys| > 1000 {
      var rest := keys[1000..];
      ChunksPartition(rest);
      assert Chunks(keys)[1..] == Chunks(rest);
      assert keys[..1000] + rest == keys;
    } else if keys != [] {
      assert Flatten([keys]) == keys + Flatten([]);
    }
  }

  /** Chunking a whole number of full batches followed by more keys chunks
      the two parts separately. */
  lemma {:induction false} ChunksAppend(a: seq<string>, b: seq<string>, n: nat)
    requires |a| == n * 1000
    ensures Chunks(a + b) == Chunks(a) + Chunks(b)
    decreases n
  {
    if n == 0 {
      assert a + b == b;
    } else if b == [] {
      assert a + b == a;
    } else {
      var rest := a[1000..];
      ChunksAppend(rest, b, n - 1);
      assert (a + b)[..1000] == a[..1000];
      assert (a + b)[1000..] == rest + b;
      if n == 1 {
        assert rest + b == b;
      }
    }
  }

  /** `_submit_delete_batch`: one `delete_objects` request, whose failure is
      reported as a failed delete. */
  function SubmitBatch(w: World, bucket: string, keys: seq<string>): (r: (Result<()>, World))
    ensures r.1 == DeleteBatch(w, bucket, keys).1
    ensures r.0.Ok? <==> DeleteBatch(w, bucket, keys).0.Ok?
    ensures r.0.Err? ==> r.0.error == DeleteFailed
  {
    var (res, w1) := DeleteBatch(w, bucket, keys);
    (if res.Err? then Err(DeleteFailed) else Ok(()), w1)
  }

  /** The batches sent one after the other, stopping at the first failure. */
  function DeleteRun(w: World, bucket: string, batches: seq<seq<string>>): (Result<()>, World)
    decreases |batches|
  {
    if batches == [] then (Ok(()), w)
    else
      var (r, w1) := SubmitBatch(w, bucket, batches[0]);
      if r.Err? then (r, w1) else DeleteRun(w1, bucket, batches[1..])
  }

  /** Running two lists of batches is running the first and, unless it
      failed, the second. */
  lemma {:induction false} DeleteRunConcat(w: World, bucket: string, xs: seq<seq<string>>, ys: seq<seq<string>>)
    ensures DeleteRun(w, bucket, xs + ys)
         == (var (r, w1) := DeleteRun(w, bucket, xs); if r.Err? then (r, w1) else DeleteRun(w1, bucket, ys))
    decreases |xs|
  {
    if xs == [] {
      assert xs + ys == ys;
    } else {
      var w1 := SubmitBatch(w, bucket, xs[0]).1;
      assert (xs + ys)[0] == xs[0] && (xs + ys)[1..] == xs[1..] + ys;
      DeleteRunConcat(w1, bucket, xs[1..], ys);
    }
  }

  /** One `DeleteObjects` request per batch, in order. */
  function Requests(bucket: string, batches: seq<seq<string>>): (r: seq<Request>)
    ensures |r| == |batches|
    ensures forall i :: 0 <= i < |r| ==> r[i] == DeleteObjects(bucket, batches[i])
  {
    if batches == [] then [] else [DeleteObjects(bucket, batches[0])] + Requests(bucket, batches[1..])
  }

  /** The bucket without the given keys. */
  function Without(m: Bucket, keys: seq<string>): (r: Bucket)
    ensures forall k :: k in r <==> k in m && k !in keys
    ensures forall k :: k in r ==> r[k] == m[k]
  {
    map k | k in m && k !in keys :: m[k]
  }

  /** On an existing bucket, batches of 1 to 1000 keys, none of them at a
      location that refuses writes, all succeed: exactly the listed keys are
      gone, nothing else changes, and one request per batch is sent. */
  lemma {:induction false} DeleteRunEffect(w: World, bucket: string, batches: seq<seq<string>>)
    requires bucket in w.buckets
    requires forall i :: 0 <= i < |batches| ==> 1 <= |batches[i]| <= 1000
    requires forall k :: k in Flatten(batches) ==> (bucket, k) !in w.denied
    ensures DeleteRun(w, bucket, batches).0 == Ok(())
    ensures DeleteRun(w, bucket, batches).1
         == w.(buckets := w.buckets[bucket := Without(w.buckets[bucket], Flatten(batches))],
               log := w.log + Requests(bucket, batches))
    decreases |batches|
  {
    var m := w.buckets[bucket];
    if batches == [] {
      assert Without(m, []) == m;
      assert w.buckets[bucket := m] == w.buckets;
      assert w.log + [] == w.log;
    } else {
      assert Flatten(batches) == batches[0] + Flatten(batches[1..]);
      SubmitBatchEffect(w, bucket, batches[0]);
      var w1 := SubmitBatch(w, bucket, batches[0]).1;
      DeleteRunEffect(w1, bucket, batches[1..]);
      EffectsCompose(w, bucket, batches);
    }
  }

  /** One batch of 1 to 1000 keys on an existing bucket. */
  lemma SubmitBatchEffect(w: World, bucket: string, keys: seq<string>)
    requires bucket in w.buckets && 1 <= |keys| <= 1000 && !Refused(w, bucket, keys)
    ensures SubmitBatch(w, bucket, keys)
         == (Ok(()), w.(buckets := w.buckets[bucket := Without(w.buckets[bucket], keys)],
                        log := w.log + [DeleteObjects(bucket, keys)]))
  {
    var w1 := DeleteBatch(w, bucket, keys).1;
    assert w1.buckets[bucket] == Without(w.buckets[bucket], keys);
    assert w1.buckets == w.buckets[bucket := Without(w.buckets[bucket], keys)];
  }

  /** The first batch's effect followed by the rest's is the effect of all. */
  lemma EffectsCompose(w: World, bucket: string, batches: seq<seq<string>>)
    requires bucket in w.buckets && batches != []
    ensures var m1 := Without(w.buckets[bucket], batches[0]);
      var w1 := w.(buckets := w.buckets[bucket := m1], log := w.log + [DeleteObjects(bucket, batches[0])]);
      w1.(buckets := w1.buckets[bucket := Without(m1, Flatten(batches[1..]))],
          log := w1.log + Requests(bucket, batches[1..]))
      == w.(buckets := w.buckets[bucket := Without(w.buckets[bucket], Flatten(batches))],
            log := w.log + Requests(bucket, batches))
  {
    var m := w.buckets[bucket];
    WithoutTwice(m, batches[0], Flatten(batches[1..]));
    assert w.log + [DeleteObjects(bucket, batches[0])] + Requests(bucket, batches[1..])
        == w.log + Requests(bucket, batches);
  }

  lemma WithoutTwice(m: Bucket, a: seq<string>, b: seq<string>)
    ensures Without(Without(m, a), b) == Without(m, a + b)
  {
  }

  /** Adding one batch at the end of a run. */
  lemma DeleteRunSnoc(w: World, bucket: string, xs: seq<seq<string>>, c: seq<string>)
    ensures DeleteRun(w, bucket, xs + [c])
         == (var (r, w1) := DeleteRun(w, bucket, xs); if r.Err? then (r, w1) else SubmitBatch(w1, bucket, c))
  {
    DeleteRunConcat(w, bucket, xs, [c]);
    var w1 := DeleteRun(w, bucket, xs).1;
    var w2 := SubmitBatch(w1, bucket, c).1;
    assert DeleteRun(w2, bucket, []) == (Ok(()), w2);
  }

  /** A batch with a key whose location refuses writes fails the run, at
      that batch or earlier. */
  lemma {:induction false} DeleteRunRefused(w: World, bucket: string, batches: seq<seq<string>>, k: string)
    requires k in Flatten(batches) && (bucket, k) in w.denied
    ensures DeleteRun(w, bucket, batches).0 == Err(DeleteFailed)
    decreases |batches|
  {
    assert batches != [];
    assert Flatten(batches) == batches[0] + Flatten(batches[1..]);
    var (r, w1) := SubmitBatch(w, bucket, batches[0]);
    if r.Ok? {
      assert k !in batches[0];
      DeleteRunRefused(w1, bucket, batches[1..], k);
    }
  }

  /** `m2` is `m` with some of `keys` removed: no key is added or changed,
      and every key not listed, or at a location that refuses writes, is
      still there. */
  predicate Trimmed(m: Bucket, m2: Bucket, keys: seq<string>, bucket: string, denied: set<(string, string)>) {
    && (forall k :: k in m2 ==> k in m && m2[k] == m[k])
    && (forall k :: k in m && (k !in keys || (bucket, k) in denied) ==> k in m2)
  }

  /** Whether it completes or stops at a failed batch, a run only removes
      listed keys of its own bucket, never one that refuses writes. */
  lemma {:induction false} DeleteRunBounds(w: World, bucket: string, batches: seq<seq<string>>)
    requires bucket in w.buckets
    ensures var w2 := DeleteRun(w, bucket, batches).1;
      w2.denied == w.denied && bucket in w2.buckets &&
      w2.buckets == w.buckets[bucket := w2.buckets[bucket]] &&
      Trimmed(w.buckets[bucket], w2.buckets[bucket], Flatten(batches), bucket, w.denied)
    decreases |batches|
  {
    if batches == [] {
      assert w.buckets == w.buckets[bucket := w.buckets[bucket]];
    } else {
      var (r, w1) := SubmitBatch(w, bucket, batches[0]);
      assert Flatten(batches) == batches[0] + Flatten(batches[1..]);
      if r.Err? {
        assert w1.buckets == w.buckets[bucket := w1.buckets[bucket]];
      } else {
        DeleteRunBounds(w1, bucket, batches[1..]);
        TrimmedCompose(w, w1, DeleteRun(w1, bucket, batches[1..]).1, bucket, batches);
      }
    }
  }

  lemma TrimmedCompose(w: World, w1: World, w2: World, bucket: string, batches: seq<seq<string>>)
    requires bucket in w.buckets && batches != []
    requires (Ok(()), w1) == SubmitBatch(w, bucket, batches[0])
    requires Flatten(batches) == batches[0] + Flatten(batches[1..])
    requires w2.denied == w1.denied && bucket in w2.buckets && w2.buckets == w1.buckets[bucket := w2.buckets[bucket]]
    requires Trimmed(w1.buckets[bucket], w2.buckets[bucket], Flatten(batches[1..]), bucket, w1.denied)
    ensures w2.denied == w.denied && w2.buckets == w.buckets[bucket := w2.buckets[bucket]]
    ensures Trimmed(w.buckets[bucket], w2.buckets[bucket], Flatten(batches), bucket, w.denied)
  {
    assert w1.buckets == w.buckets[bucket := w1.buckets[bucket]];
  }

  /** A run that has failed stays failed, whatever batches follow. */
  lemma DeleteRunFailed(w: World, bucket: string, xs: seq<seq<string>>, ys: seq<seq<string>>)
    requires DeleteRun(w, bucket, xs).0.Err?
    ensures DeleteRun(w, bucket, xs + ys) == DeleteRun(w, bucket, xs)
  {
    DeleteRunConcat(w, bucket, xs, ys);
  }

  /** The chunks of the first `n + 1` full batches. */
  lemma ChunksStep(keys: seq<string>, n: nat)
    requires (n + 1) * 1000 <= |keys|
    ensures Chunks(keys[..(n + 1) * 1000])
         == Chunks(keys[..n * 1000]) + [keys[n * 1000..(n + 1) * 1000]]
  {
    var a := keys[..n * 1000];
    var c := keys[n * 1000..(n + 1) * 1000];
    assert keys[..(n + 1) * 1000] == a + c;
    ChunksAppend(a, c, n);
  }

  /** The keys split after whole batches. */
  lemma ChunksSplit(keys: seq<string>, n: nat)
    requires n * 1000 <= |keys|
    ensures Chunks(keys) == Chunks(keys[..n * 1000]) + Chunks(keys[n * 1000..])
  {
    var k := n * 1000;
    TakeDrop(keys, k);
    ChunksAppend(keys[..k], keys[k..], n);
  }

  lemma TakeDrop(keys: seq<string>, k: nat)
    requires k <= |keys|
    ensures keys[..k] + keys[k..] == keys && |keys[..k]| == k
  {
  }

  /** `_submit_delete_batch` on the store. */
  method SubmitDeleteBatch(store: ObjectStore, bucket: string, keys: seq<string>) returns (r: Result<()>)
    modifies store
    ensures (r, store.State()) == SubmitBatch(old(store.State()), bucket, keys)
  {
    var res := store.DeleteObjects(bucket, keys);
    r := if res.Err? then Err(DeleteFailed) else Ok(());
  }

  /** `_delete_object_batch(bucket, keys)`: collects keys into a chunk and
      sends it whenever it reaches 1000 keys, then sends what is left. */
  method DeleteObjectBatch(store: ObjectStore, bucket: string, keys: seq<string>) returns (r: Result<()>)
    modifies store
    ensures (r, store.State()) == DeleteRun(old(store.State()), bucket, Chunks(keys))
  {
    ghost var w0 := store.State();
    var chunk: seq<string> := [];
    var i := 0;
    ghost var full: nat := 0;
    r := Ok(());
    while i < |keys|
      invariant 0 <= i <= |keys|
      invariant |chunk| < 1000 && i == full * 1000 + |chunk|
      invariant chunk == keys[full * 1000..i]
      invariant r == Ok(()) && (r, store.State()) == DeleteRun(w0, bucket, Chunks(keys[..full * 1000]))
    {
      SliceSnoc(keys, full * 1000, i);
      chunk := chunk + [keys[i]];
      i := i + 1;
      if |chunk| == 1000 {
        assert i == (full + 1) * 1000 && chunk == keys[full * 1000..(full + 1) * 1000];
        FullBatch(w0, bucket, keys, full, store.State());
        r := SubmitDeleteBatch(store, bucket, chunk);
        assert (r, store.State()) == DeleteRun(w0, bucket, Chunks(keys[..(full + 1) * 1000]));
        full := full + 1;
        if r.Err? {
          FailedBatch(w0, bucket, keys, full);
          return;
        }
        chunk := [];
      }
    }
    assert keys[full * 1000..] == chunk;
    TailBatch(w0, bucket, keys, full, store.State());
    if chunk != [] {
      r := SubmitDeleteBatch(store, bucket, chunk);
    }
  }

  lemma SliceSnoc(keys: seq<string>, lo: nat, hi: nat)
    requires lo <= hi < |keys|
    ensures keys[lo..hi + 1] == keys[lo..hi] + [keys[hi]]
  {
  }

  /** Sending the next full batch extends the run by that batch. */
  lemma FullBatch(w0: World, bucket: string, keys: seq<string>, full: nat, w: World)
    requires (full + 1) * 1000 <= |keys|
    requires DeleteRun(w0, bucket, Chunks(keys[..full * 1000])) == (Ok(()), w)
    ensures DeleteRun(w0, bucket, Chunks(keys[..(full + 1) * 1000]))
         == SubmitBatch(w, bucket, keys[full * 1000..(full + 1) * 1000])
  {
    ChunksStep(keys, full);
    DeleteRunSnoc(w0, bucket, Chunks(keys[..full * 1000]), keys[full * 1000..(full + 1) * 1000]);
  }

  /** A failed batch ends the whole run. */
  lemma FailedBatch(w0: World, bucket: string, keys: seq<string>, full: nat)
    requires full * 1000 <= |keys|
    requires DeleteRun(w0, bucket, Chunks(keys[..full * 1000])).0.Err?
    ensures DeleteRun(w0, bucket, Chunks(keys)) == DeleteRun(w0, bucket, Chunks(keys[..full * 1000]))
  {
    ChunksSplit(keys, full);
    DeleteRunFailed(w0, bucket, Chunks(keys[..full * 1000]), Chunks(keys[full * 1000..]));
  }

  /** After the full batches, what is left goes in one last batch, if any. */
  lemma TailBatch(w0: World, bucket: string, keys: seq<string>, full: nat, w: World)
    requires full * 1000 <= |keys| < full * 1000 + 1000
    requires DeleteRun(w0, bucket, Chunks(keys[..full * 1000])) == (Ok(()), w)
    ensures DeleteRun(w0, bucket, Chunks(keys))
         == if |keys| == full * 1000 then (Ok(()), w) else SubmitBatch(w, bucket, keys[full * 1000..])
  {
    var rest := keys[full * 1000..];
    ChunksSplit(keys, full);
    DeleteRunConcat(w0, bucket, Chunks(keys[..full * 1000]), Chunks(rest));
    if rest != [] {
      assert Chunks(rest) == [rest];
      LastBatch(w, bucket, rest);
    } else {
      assert Chunks(rest) == [];
    }
  }

  /** A run of one batch is that batch. */
  lemma LastBatch(w: World, bucket: string, chunk: seq<string>)
    ensures DeleteRun(w, bucket, [chunk]) == SubmitBatch(w, bucket, chunk)
  {
    var w2 := SubmitBatch(w, bucket, chunk).1;
    assert DeleteRun(w2, bucket, []) == (Ok(()), w2);
  }

  // ---- pruning a prefix ----

  /** The bucket without the keys under `prefix`. */
  function Pruned(m: Bucket, prefix: string): (r: Bucket)
    ensures forall k :: k in r <==> k in m && !StartsWith(k, prefix)
    ensures forall k :: k in r ==> r[k] == m[k]
  {
    map k | k in m && !StartsWith(k, prefix) :: m[k]
  }

  /** `delete_prefix_contents(bucket, prefix)` as a step of the store. */
  function Prune(w: World, bucket: string, prefix: string): (Result<()>, World) {
    var p := StripSlashes(prefix);
    if p == "" then (Ok(()), w)
    else match ListKeys(w, bucket, p + "/")
      case Err(_) => (Err(PruneListFailed), w)
      case Ok(keys) => if keys == [] then (Ok(()), w) else DeleteRun(w, bucket, Chunks(keys))
  }

  /** No key under `prefix` in the bucket is at a location that refuses
      writes. */
  predicate Deletable(w: World, bucket: string, prefix: string) {
    forall k :: bucket in w.buckets && k in w.buckets[bucket] && StartsWith(k, prefix) ==> (bucket, k) !in w.denied
  }

  /** A prefix that is empty once its slashes are stripped changes nothing;
      a missing bucket fails the listing; otherwise, when no key under
      `prefix/` refuses deletion, every key under it is gone and every other
      key keeps its body. */
  lemma PruneEffect(w: World, bucket: string, prefix: string)
    ensures StripSlashes(prefix) == "" ==> Prune(w, bucket, prefix) == (Ok(()), w)
    ensures StripSlashes(prefix) != "" && bucket !in w.buckets ==>
      Prune(w, bucket, prefix) == (Err(PruneListFailed), w)
    ensures StripSlashes(prefix) != "" && bucket in w.buckets && Deletable(w, bucket, StripSlashes(prefix) + "/") ==>
      Prune(w, bucket, prefix).0 == Ok(()) &&
      Prune(w, bucket, prefix).1.denied == w.denied &&
      Prune(w, bucket, prefix).1.buckets == w.buckets[bucket := Pruned(w.buckets[bucket], StripSlashes(prefix) + "/")]
  {
    var p := StripSlashes(prefix);
    if p != "" && bucket in w.buckets && Deletable(w, bucket, p + "/") {
      var keys := ListKeys(w, bucket, p + "/").value;
      var m := w.buckets[bucket];
      WithoutListed(m, keys, p + "/");
      if keys == [] {
        assert Without(m, keys) == m;
        assert w.buckets[bucket := m] == w.buckets;
      } else {
        ChunksPartition(keys);
        DeleteRunEffect(w, bucket, Chunks(keys));
      }
    }
  }

  /** Removing the listed keys under a prefix is pruning the prefix. */
  lemma WithoutListed(m: Bucket, keys: seq<string>, prefix: string)
    requires forall k :: k in keys <==> k in m && StartsWith(k, prefix)
    ensures Without(m, keys) == Pruned(m, prefix)
  {
  }

  /** A key under `prefix/` whose location refuses writes fails the prune
      with a failed delete. The batches before the refused one are already
      gone by then, so the bucket is left partly pruned: nothing outside
      `prefix/` and no refused key is removed, and no body changes. */
  lemma PruneRefused(w: World, bucket: string, prefix: string)
    ensures StripSlashes(prefix) != "" && bucket in w.buckets && !Deletable(w, bucket, StripSlashes(prefix) + "/") ==>
      var (r, w2) := Prune(w, bucket, prefix);
      r == Err(DeleteFailed) && w2.denied == w.denied && bucket in w2.buckets &&
      w2.buckets == w.buckets[bucket := w2.buckets[bucket]] &&
      PartlyPruned(w.buckets[bucket], w2.buckets[bucket], StripSlashes(prefix) + "/", bucket, w.denied)
  {
    var p := StripSlashes(prefix);
    if p != "" && bucket in w.buckets && !Deletable(w, bucket, p + "/") {
      var m := w.buckets[bucket];
      var keys := ListKeys(w, bucket, p + "/").value;
      var k :| k in m && StartsWith(k, p + "/") && (bucket, k) in w.denied;
      assert k in keys;
      ChunksPartition(keys);
      DeleteRunRefused(w, bucket, Chunks(keys), k);
      DeleteRunBounds(w, bucket, Chunks(keys));
      TrimmedListed(m, DeleteRun(w, bucket, Chunks(keys)).1.buckets[bucket], keys, p + "/", bucket, w.denied);
    }
  }

  /** `m2` is `m` with some keys under `prefix` removed, but none whose
      location refuses writes. */
  predicate PartlyPruned(m: Bucket, m2: Bucket, prefix: string, bucket: string, denied: set<(string, string)>) {
    && (forall k :: k in m2 ==> k in m && m2[k] == m[k])
    && (forall k :: k in m && !StartsWith(k, prefix) ==> k in m2)
    && (forall k :: k in m && (bucket, k) in denied ==> k in m2)
  }

  lemma TrimmedListed(m: Bucket, m2: Bucket, keys: seq<string>, prefix: string, bucket: string, denied: set<(string, string)>)
    requires forall k :: k in keys <==> k in m && StartsWith(k, prefix)
    requires Trimmed(m, m2, keys, bucket, denied)
    ensures PartlyPruned(m, m2, prefix, bucket, denied)
  {
  }

  /** The delete requests pruning sends: batches of 1 to 1000 keys that,
      put together, are the keys under the prefix in listing order; all of
      them are sent when none of the keys refuses deletion. */
  lemma PruneRequests(w: World, bucket: string, prefix: string)
    requires StripSlashes(prefix) != "" && bucket in w.buckets
    ensures var keys := ListKeys(w, bucket, StripSlashes(prefix) + "/").value;
      (Deletable(w, bucket, StripSlashes(prefix) + "/") ==>
         Prune(w, bucket, prefix).1.log == w.log + Requests(bucket, Chunks(keys))) &&
      Flatten(Chunks(keys)) == keys &&
      forall i :: 0 <= i < |Chunks(keys)| ==> 1 <= |Chunks(keys)[i]| <= 1000
  {
    var keys := ListKeys(w, bucket, StripSlashes(prefix) + "/").value;
    ChunksPartition(keys);
    if keys != [] && Deletable(w, bucket, StripSlashes(prefix) + "/") {
      DeleteRunEffect(w, bucket, Chunks(keys));
    } else {
      assert w.log + [] == w.log;
    }
  }

  /** `delete_prefix_contents(bucket, prefix)` on the store. */
  method DeletePrefixContents(store: ObjectStore, bucket: string, prefix: string) returns (r: Result<()>)
    modifies store
    ensures (r, store.State()) == Prune(old(store.State()), bucket, prefix)
  {
    var p := StripSlashes(prefix);
    if p == "" {
      return Ok(());
    }
    var listing := store.ListObjects(bucket, p + "/");
    if listing.Err? {
      return Err(PruneListFailed);
    }
    if listing.value == [] {
      return Ok(());
    }
    r := DeleteObjectBatch(store, bucket, listing.value);
  }

  // ---- finding the source workbook ----

  /** A key whose last path component ends in `.xlsx`, in any case. */
  predicate IsSourceKey(key: string) {
    HasXlsxSuffix(Name(key))
  }

  /** The position of the first key that satisfies `p`, or the length of
      the listing when none does. */
  function FirstIndex(keys: seq<string>, p: string -> bool): (i: nat)
    ensures i <= |keys|
    ensures i < |keys| ==> p(keys[i])
    ensures forall j :: 0 <= j < i ==> !p(keys[j])
  {
    if keys == [] then 0
    else if p(keys[0]) then 0
    else 1 + FirstIndex(keys[1..], p)
  }

  /** The first source key of a listing, if any; a failed listing fails. */
  function FirstSource(listing: Result<seq<string>>): Result<Option<string>> {
    match listing
    case Err(e) => Err(e)
    case Ok(keys) =>
      var i := FirstIndex(keys, IsSourceKey);
      Ok(if i < |keys| then Some(keys[i]) else None)
  }

  /** `find_original_object(bucket, lookup_key)` as a function of the store:
      the first key under `lookup_key/` that names a workbook. */
  function FindOriginal(w: World, bucket: string, lookupKey: string): Result<Option<string>> {
    FirstSource(ListKeys(w, bucket, JoinKey(lookupKey, "")))
  }

  /** In an ascending listing the first key with a property is the least
      key with it, and there is no first key exactly when no key has it. */
  lemma FirstIndexIsLeast(keys: seq<string>, p: string -> bool)
    requires Lex.Ascending(keys)
    ensures FirstIndex(keys, p) == |keys| <==> forall k :: k in keys ==> !p(k)
    ensures FirstIndex(keys, p) < |keys| ==>
      forall k :: k in keys && p(k) ==> !Lex.Less(k, keys[FirstIndex(keys, p)])
  {
    var i := FirstIndex(keys, p);
    if i < |keys| {
      Lex.FirstIsLeast(keys, i, p);
      assert keys[i] in keys;
    } else {
      forall k | k in keys ensures !p(k) {
        var j :| 0 <= j < |keys| && keys[j] == k;
      }
    }
  }

  /** The same for the keys a listing of an existing bucket returns. */
  lemma ListedFirstIsLeast(w: World, bucket: string, prefix: string, p: string -> bool)
    requires bucket in w.buckets
    ensures var keys := ListKeys(w, bucket, prefix).value;
      var i := FirstIndex(keys, p);
      (i == |keys| <==> forall k :: k in w.buckets[bucket] && StartsWith(k, prefix) ==> !p(k)) &&
      (i < |keys| ==>
        keys[i] in w.buckets[bucket] && StartsWith(keys[i], prefix) && p(keys[i]) &&
        forall k :: k in w.buckets[bucket] && StartsWith(k, prefix) && p(k) ==> !Lex.Less(k, keys[i]))
  {
    var keys := ListKeys(w, bucket, prefix).value;
    FirstIndexIsLeast(keys, p);
    var i := FirstIndex(keys, p);
    if i < |keys| {
      assert keys[i] in keys;
    }
  }

  /** `find_original_object` answers with the least key under `lookup_key/`
      whose name ends in `.xlsx`, and with nothing exactly when there is no
      such key. */
  lemma FindOriginalIsLeast(w: World, bucket: string, lookupKey: string)
    requires bucket in w.buckets
    ensures var prefix := JoinKey(lookupKey, "");
      var r := FindOriginal(w, bucket, lookupKey);
      r.Ok? &&
      (r.value.None? <==> forall k :: k in w.buckets[bucket] && StartsWith(k, prefix) ==> !IsSourceKey(k)) &&
      (r.value.Some? ==>
        var found := r.value.value;
        found in w.buckets[bucket] && StartsWith(found, prefix) && IsSourceKey(found) &&
        forall k :: k in w.buckets[bucket] && StartsWith(k, prefix) && IsSourceKey(k) ==> !Lex.Less(k, found))
  {
    ListedFirstIsLeast(w, bucket, JoinKey(lookupKey, ""), IsSourceKey);
  }

  /** `find_original_object(bucket, lookup_key)` on the store. */
  method FindOriginalObject(store: ObjectStore, bucket: string, lookupKey: string) returns (r: Result<Option<string>>)
    ensures r == FindOriginal(store.State(), bucket, lookupKey)
  {
    r := ScanForSource(store, bucket, JoinKey(lookupKey, ""));
  }

  /** The scan of `find_original_object`: lists the keys under the prefix
      and looks for a workbook among them. */
  method ScanForSource(store: ObjectStore, bucket: string, prefix: string) returns (r: Result<Option<string>>)
    ensures r == FirstSource(ListKeys(store.State(), bucket, prefix))
  {
    var listing := store.ListObjects(bucket, prefix);
    if listing.Err? {
      return Err(listing.error);
    }
    var found := ScanKeys(listing.value);
    return Ok(found);
  }

  /** The inner loop: the first listed key that names a workbook. */
  method ScanKeys(keys: seq<string>) returns (found: Option<string>)
    ensures found == (var i := FirstIndex(keys, IsSourceKey); if i < |keys| then Some(keys[i]) else None)
  {
    ghost var first := FirstIndex(keys, IsSourceKey);
    var i := 0;
    while i < |keys|
      invariant 0 <= i <= first
    {
      FirstIndexAt(keys, i);
      if IsSourceKey(keys[i]) {
        return Some(keys[i]);
      }
      i := i + 1;
    }
    return None;
  }

  /** Before the first source key, the scan stops exactly at it. */
  lemma FirstIndexAt(keys: seq<string>, i: nat)
    requires i < |keys| && i <= FirstIndex(keys, IsSourceKey)
    ensures IsSourceKey(keys[i]) <==> FirstIndex(keys, IsSourceKey) == i
  {
  }
}
