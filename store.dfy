/** The object store the handlers talk to through boto3, reduced to the five
    calls they make: `get_object`, `head_object`, `put_object`,
    `delete_objects` and `list_objects_v2`.

    The store is one account's worth of buckets, each a map from key to body.
    Some locations refuse writes (`denied`): a `put_object` there, or a
    `delete_objects` naming one, raises a `ClientError`, which is how the
    model expresses a failed write. Every request that changes or could
    change the store is appended to `log`, so that the order of writes and
    the size of delete batches can be stated. */
module Store {
  import opened Wrappers
  import opened Text
  import Lex

  type Bucket = map<string, seq<byte>>

  /** A mutating request as it goes over the wire. */
  datatype Request =
    | PutObject(bucket: string, key: string)
    | DeleteObjects(bucket: string, keys: seq<string>)

  /** A snapshot of the store: its buckets, the locations that refuse
      writes, and the requests sent so far. */
  datatype World = World(buckets: map<string, Bucket>, denied: set<(string, string)>, log: seq<Request>)

  /** The largest batch `delete_objects` accepts. */
  const MaxDeleteBatch: nat := 1000

  /** `get_object(Bucket, Key)`: the body, or nothing when the bucket or the
      key does not exist. */
  function ReadObject(w: World, bucket: string, key: string): (r: Option<seq<byte>>)
    ensures r.Some? <==> bucket in w.buckets && key in w.buckets[bucket]
    ensures r.Some? ==> r.value == w.buckets[bucket][key]
  {
    if bucket in w.buckets && key in w.buckets[bucket] then Some(w.buckets[bucket][key]) else None
  }

  /** `object_exists`: `head_object` answers 404 both for a missing key and
      for a missing bucket, and the source reads both as "absent". */
  predicate Exists(w: World, bucket: string, key: string) {
    bucket in w.buckets && key in w.buckets[bucket]
  }

  /** `list_objects_v2(Bucket, Prefix)`, all pages together: the keys that
      start with `prefix`, in listing order; a missing bucket is a
      `ClientError`. */
  function ListKeys(w: World, bucket: string, prefix: string): (r: Result<seq<string>>)
    ensures r.Err? <==> bucket !in w.buckets
    ensures r.Err? ==> r.error == StoreFailure
    ensures r.Ok? ==> Lex.Ascending(r.value)
    ensures r.Ok? ==> forall k :: k in r.value <==> k in w.buckets[bucket] && StartsWith(k, prefix)
  {
    if bucket !in w.buckets then Err(StoreFailure)
    else Ok(Lex.Sorted(set k | k in w.buckets[bucket] && StartsWith(k, prefix)))
  }

  /** `put_object`: stores the body unless the bucket is missing or the
      location refuses writes. The request is sent either way. */
  function Put(w: World, bucket: string, key: string, body: seq<byte>): (r: (Result<()>, World))
    ensures r.1.log == w.log + [PutObject(bucket, key)] && r.1.denied == w.denied
    ensures r.0.Ok? <==> bucket in w.buckets && (bucket, key) !in w.denied
    ensures r.0.Err? ==> r.0.error == StoreFailure && r.1.buckets == w.buckets
    ensures r.0.Ok? ==> r.1.buckets == w.buckets[bucket := w.buckets[bucket][key := body]]
  {
    var sent := w.(log := w.log + [PutObject(bucket, key)]);
    if bucket !in w.buckets || (bucket, key) in w.denied then (Err(StoreFailure), sent)
    else (Ok(()), sent.(buckets := w.buckets[bucket := w.buckets[bucket][key := body]]))
  }

  /** Some key of the batch is at a location that refuses writes. */
  predicate Refused(w: World, bucket: string, keys: seq<string>) {
    exists k :: k in keys && (bucket, k) in w.denied
  }

  /** `delete_objects`: removes the listed keys from an existing bucket; a
      missing bucket, a batch that is empty or over the limit, or a batch
      holding a key whose location refuses writes, is a `ClientError`, and
      then nothing of the batch is removed. */
  function DeleteBatch(w: World, bucket: string, keys: seq<string>): (r: (Result<()>, World))
    ensures r.1.log == w.log + [DeleteObjects(bucket, keys)] && r.1.denied == w.denied
    ensures r.0.Ok? <==> bucket in w.buckets && 1 <= |keys| <= MaxDeleteBatch && !Refused(w, bucket, keys)
    ensures r.0.Err? ==> r.0.error == StoreFailure && r.1.buckets == w.buckets
    ensures r.0.Ok? ==> r.1.buckets.Keys == w.buckets.Keys
    ensures r.0.Ok? ==> forall b :: b in w.buckets && b != bucket ==> r.1.buckets[b] == w.buckets[b]
    ensures r.0.Ok? ==> forall k :: k in r.1.buckets[bucket] <==> k in w.buckets[bucket] && k !in keys
    ensures r.0.Ok? ==> forall k :: k in r.1.buckets[bucket] ==> r.1.buckets[bucket][k] == w.buckets[bucket][k]
  {
    var sent := w.(log := w.log + [DeleteObjects(bucket, keys)]);
    if bucket !in w.buckets || !(1 <= |keys| <= MaxDeleteBatch) || Refused(w, bucket, keys) then (Err(StoreFailure), sent)
    else (Ok(()), sent.(buckets := w.buckets[bucket := w.buckets[bucket] - set k | k in keys]))
  }

  /** The S3 client. Its fields are the current contents of the store. */
  class ObjectStore {
    var buckets: map<string, Bucket>
    const denied: set<(string, string)>
    var log: seq<Request>

    constructor (initial: map<string, Bucket>, refused: set<(string, string)>)
      ensures State() == World(initial, refused, [])
    {
      buckets := initial;
      denied := refused;
      log := [];
    }

    function State(): World
      reads this
    {
      World(buckets, denied, log)
    }

    method GetObject(bucket: string, key: string) returns (r: Option<seq<byte>>)
      ensures r.Some? <==> Exists(State(), bucket, key)
      ensures r.Some? ==> r.value == buckets[bucket][key]
    {
      if bucket in buckets && key in buckets[bucket] {
        r := Some(buckets[bucket][key]);
      } else {
        r := None;
      }
    }

    method HeadObject(bucket: string, key: string) returns (found: bool)
      ensures found <==> bucket in buckets && key in buckets[bucket]
    {
      found := bucket in buckets && key in buckets[bucket];
    }

    method ListObjects(bucket: string, prefix: string) returns (r: Result<seq<string>>)
      ensures r == ListKeys(State(), bucket, prefix)
    {
      if bucket !in buckets {
        r := Err(StoreFailure);
      } else {
        r := Ok(Lex.Sorted(set k | k in buckets[bucket] && StartsWith(k, prefix)));
      }
    }

    method PutObject(bucket: string, key: string, body: seq<byte>) returns (r: Result<()>)
      modifies this
      ensures (r, State()) == Put(old(State()), bucket, key, body)
    {
      log := log + [Request.PutObject(bucket, key)];
      if bucket !in buckets || (bucket, key) in denied {
        r := Err(StoreFailure);
      } else {
        buckets := buckets[bucket := buckets[bucket][key := body]];
        r := Ok(());
      }
    }

    method DeleteObjects(bucket: string, keys: seq<string>) returns (r: Result<()>)
      modifies this
      ensures (r, State()) == DeleteBatch(old(State()), bucket, keys)
    {
      log := log + [Request.DeleteObjects(bucket, keys)];
      if bucket !in buckets || !(1 <= |keys| <= MaxDeleteBatch) || exists k :: k in keys && (bucket, k) in denied {
        r := Err(StoreFailure);
      } else {
        buckets := buckets[bucket := buckets[bucket] - set k | k in keys];
        r := Ok(());
      }
    }
  }
}
