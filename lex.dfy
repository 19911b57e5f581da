/** The order in which the object store lists keys.

    S3 lists keys in ascending order of their UTF-8 bytes, which for Unicode
    scalar values is the lexicographic order of code points: the order
    `Less` below. */
module Lex {

  /** `a` comes strictly before `b`. */
  predicate Less(a: string, b: string) {
    if a == [] then b != []
    else b != [] && (a[0] < b[0] || (a[0] == b[0] && Less(a[1..], b[1..])))
  }

  lemma {:induction false} Irreflexive(a: string)
    ensures !Less(a, a)
  {
    if a != [] { Irreflexive(a[1..]); }
  }

  lemma {:induction false} Transitive(a: string, b: string, c: string)
    requires Less(a, b) && Less(b, c)
    ensures Less(a, c)
  {
    if a != [] && a[0] == b[0] && b[0] == c[0] {
      Transitive(a[1..], b[1..], c[1..]);
    }
  }

  /** Any two distinct keys are ordered one way round, and only one way. */
  lemma {:induction false} Total(a: string, b: string)
    ensures a == b || Less(a, b) || Less(b, a)
    ensures !(Less(a, b) && Less(b, a))
  {
    if a != [] && b != [] && a[0] == b[0] {
      Total(a[1..], b[1..]);
      if a[1..] == b[1..] {
        assert a == [a[0]] + a[1..] && b == [b[0]] + b[1..];
      }
    }
  }

  lemma TotalAll()
    ensures forall a: string, b: string {:trigger Less(a, b)} :: a == b || Less(a, b) || Less(b, a)
    ensures forall a: string, b: string {:trigger Less(a, b)} :: !(Less(a, b) && Less(b, a))
  {
    forall a: string, b: string ensures a == b || Less(a, b) || Less(b, a) {
      Total(a, b);
    }
    forall a: string, b: string ensures !(Less(a, b) && Less(b, a)) {
      Total(a, b);
    }
  }

  /** `m` is a least element of `s`. */
  predicate IsLeast(m: string, s: set<string>) {
    m in s && forall x :: x in s ==> !Less(x, m)
  }

  /** Every finite non-empty set of keys has a least element. */
  lemma {:induction false} LeastExists(s: set<string>)
    requires s != {}
    ensures exists m :: IsLeast(m, s)
    decreases |s|
  {
    var x :| x in s;
    if s == {x} {
      Irreflexive(x);
      assert IsLeast(x, s);
    } else {
      var rest := s - {x};
      LeastExists(rest);
      var m :| IsLeast(m, rest);
      if Less(x, m) {
        forall y | y in s ensures !Less(y, x) {
          if y == x {
            Irreflexive(x);
          } else if Less(y, x) {
            assert y in rest;
            Transitive(y, x, m);
          }
        }
        assert IsLeast(x, s);
      } else {
        assert IsLeast(m, s);
      }
    }
  }

  /** The least key of a finite non-empty set: the first one a listing shows. */
  function Least(s: set<string>): (m: string)
    requires s != {}
    ensures IsLeast(m, s)
  {
    LeastExists(s);
    TotalAll();
    var m :| IsLeast(m, s);
    m
  }

  /** Strictly ascending, hence also free of duplicates. */
  predicate Ascending(keys: seq<string>) {
    forall i, j :: 0 <= i < j < |keys| ==> Less(keys[i], keys[j])
  }

  /** The keys of `s` in listing order. */
  function Sorted(s: set<string>): (r: seq<string>)
    ensures Ascending(r)
    ensures forall k :: k in r <==> k in s
    ensures |r| == |s|
    decreases |s|
  {
    if s == {} then []
    else
      var m := Least(s);
      var rest := Sorted(s - {m});
      LeastFirst(m, s, rest);
      [m] + rest
  }

  /** The least key followed by the others in order is in order. */
  lemma LeastFirst(m: string, s: set<string>, rest: seq<string>)
    requires IsLeast(m, s) && Ascending(rest)
    requires forall k :: k in rest <==> k in s - {m}
    ensures Ascending([m] + rest)
    ensures forall k :: k in [m] + rest <==> k in s
  {
    var r := [m] + rest;
    forall i, j | 0 <= i < j < |r| ensures Less(r[i], r[j]) {
      if i == 0 {
        assert rest[j - 1] in s - {m};
        Total(m, rest[j - 1]);
      } else {
        assert r[i] == rest[i - 1] && r[j] == rest[j - 1];
      }
    }
  }

  /** In an ascending sequence, the first element with a property is the least
      element with it. */
  lemma {:induction false} FirstIsLeast(keys: seq<string>, i: nat, p: string -> bool)
    requires Ascending(keys)
    requires i < |keys| && p(keys[i])
    requires forall j :: 0 <= j < i ==> !p(keys[j])
    ensures IsLeast(keys[i], set k | k in keys && p(k))
  {
    forall x | x in keys && p(x) ensures !Less(x, keys[i]) {
      var j :| 0 <= j < |keys| && keys[j] == x;
      if j < i {
      } else if j == i {
        Irreflexive(x);
      } else {
        Total(keys[i], x);
      }
    }
  }
}
