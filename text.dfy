/** The handful of Python `str` operations the handlers rely on, with Python's
    semantics: `strip`, `lstrip`/`rstrip` of one character, `lower` (on ASCII
    letters), `startswith`/`endswith`, and `split` on one separator. */
module Text {

  /** Python's `str.isspace`: the characters `str.strip()` skips. */
  predicate IsSpace(c: char) {
    || c == ' '
    || ('\t' <= c <= '\r')
    || ('\U{1c}' <= c <= '\U{1f}')
    || c == '\U{85}' || c == '\U{a0}' || c == '\U{1680}'
    || ('\U{2000}' <= c <= '\U{200a}')
    || c == '\U{2028}' || c == '\U{2029}' || c == '\U{202f}' || c == '\U{205f}' || c == '\U{3000}'
  }

  /** `s.lstrip(chars)`: drops the leading characters that satisfy `drop`. */
  function LStrip(s: string, drop: char -> bool): (r: string)
    ensures |r| <= |s| && r == s[|s| - |r|..]
    ensures forall i :: 0 <= i < |s| - |r| ==> drop(s[i])
    ensures r != [] ==> !drop(r[0])
  {
    if s != [] && drop(s[0]) then LStrip(s[1..], drop) else s
  }

  /** `s.rstrip(chars)`: drops the trailing characters that satisfy `drop`. */
  function RStrip(s: string, drop: char -> bool): (r: string)
    ensures |r| <= |s| && r == s[..|r|]
    ensures forall i :: |r| <= i < |s| ==> drop(s[i])
    ensures r != [] ==> !drop(r[|r| - 1])
  {
    if s != [] && drop(s[|s| - 1]) then RStrip(s[..|s| - 1], drop) else s
  }

  /** `s.strip()`: drops surrounding white space. */
  function Strip(s: string): string {
    RStrip(LStrip(s, IsSpace), IsSpace)
  }

  predicate IsSlash(c: char) { c == '/' }

  /** `s.strip("/")`. */
  function StripSlashes(s: string): string {
    RStrip(LStrip(s, IsSlash), IsSlash)
  }

  /** A string with no surrounding white space is its own `strip()`; a
      stripped string is stripped again to itself. */
  lemma StripFixpoint(s: string)
    ensures (s == [] || (!IsSpace(s[0]) && !IsSpace(s[|s| - 1]))) ==> Strip(s) == s
    ensures Strip(Strip(s)) == Strip(s)
  {
    var l := LStrip(s, IsSpace);
    var r := RStrip(l, IsSpace);
    assert r != [] ==> r[0] == l[0];
  }

  /** A stripped string neither starts nor ends with white space. */
  lemma StripEdges(s: string)
    ensures var t := Strip(s);
      t != [] ==> !IsSpace(t[0]) && !IsSpace(t[|t| - 1])
  {
    var l := LStrip(s, IsSpace);
    var t := RStrip(l, IsSpace);
    assert t != [] ==> t[0] == l[0];
  }

  lemma StripSlashesFixpoint(s: string)
    ensures '/' !in s ==> StripSlashes(s) == s
    ensures StripSlashes(StripSlashes(s)) == StripSlashes(s)
  {
    var l := LStrip(s, IsSlash);
    var r := RStrip(l, IsSlash);
    if '/' !in s {
      assert s != [] ==> s[0] in s && s[|s| - 1] in s;
    }
    assert r != [] ==> r[0] == l[0];
  }

  /** Python's `str.lower()` restricted to ASCII letters. For the suffix checks
      of this system the restriction changes nothing: no other character
      lower-cases to one of `.`, `x`, `l`, `s`, `p`, `d`, `f`. */
  function LowerChar(c: char): char {
    if 'A' <= c <= 'Z' then (c as int + 32) as char else c
  }

  function Lower(s: string): (r: string)
    ensures |r| == |s| && forall i :: 0 <= i < |s| ==> r[i] == LowerChar(s[i])
  {
    seq(|s|, i requires 0 <= i < |s| => LowerChar(s[i]))
  }

  predicate StartsWith(s: string, prefix: string) {
    |prefix| <= |s| && s[..|prefix|] == prefix
  }

  predicate EndsWith(s: string, suffix: string) {
    |suffix| <= |s| && s[|s| - |suffix|..] == suffix
  }

  /** `s.lower().endswith(suffix)` for a lower-case `suffix`. */
  predicate EndsWithIgnoringCase(s: string, suffix: string) {
    EndsWith(Lower(s), suffix)
  }

  /** Lower-casing keeps every character that is not an upper-case letter. */
  lemma LowerKeeps(s: string)
    requires forall i :: 0 <= i < |s| ==> !('A' <= s[i] <= 'Z')
    ensures Lower(s) == s
  {
  }

  lemma EndsWithAppend(a: string, b: string, suffix: string)
    requires EndsWith(b, suffix)
    ensures EndsWith(a + b, suffix)
  {
    assert (a + b)[|a + b| - |suffix|..] == b[|b| - |suffix|..];
  }

  lemma EndsWithIgnoringCaseAppend(a: string, b: string, suffix: string)
    requires EndsWithIgnoringCase(b, suffix)
    ensures EndsWithIgnoringCase(a + b, suffix)
  {
    assert Lower(a + b) == Lower(a) + Lower(b);
    EndsWithAppend(Lower(a), Lower(b), suffix);
  }

  /** `sep.join(parts)`. */
  function Join(parts: seq<string>, sep: char): string
  {
    if |parts| == 0 then ""
    else if |parts| == 1 then parts[0]
    else parts[0] + [sep] + Join(parts[1..], sep)
  }

  /** `s.split(sep)`: never empty, and the pieces hold no separator. */
  function Split(s: string, sep: char): (r: seq<string>)
    ensures |r| >= 1
    ensures forall i :: 0 <= i < |r| ==> sep !in r[i]
  {
    if s == [] then [""]
    else
      var rest := Split(s[1..], sep);
      if s[0] == sep then [""] + rest
      else
        var r := [[s[0]] + rest[0]] + rest[1..];
        assert r[1..] == rest[1..];
        r
  }

  /** Joining the pieces back with the separator gives `s` again. */
  lemma {:induction false} JoinSplit(s: string, sep: char)
    ensures Join(Split(s, sep), sep) == s
    decreases |s|
  {
    if s != [] {
      var rest := Split(s[1..], sep);
      JoinSplit(s[1..], sep);
      assert s == [s[0]] + s[1..];
      if s[0] == sep {
        assert ([""] + rest)[1..] == rest;
      } else {
        var r := [[s[0]] + rest[0]] + rest[1..];
        assert r[1..] == rest[1..];
        if |rest| > 1 {
          assert Join(rest, sep) == rest[0] + [sep] + Join(rest[1..], sep);
        }
      }
    }
  }

  lemma SplitNoSeparator(s: string, sep: char)
    requires sep !in s
    ensures Split(s, sep) == [s]
  {
    if s != [] {
      assert sep !in s[1..];
      SplitNoSeparator(s[1..], sep);
      assert [s[0]] + s[1..] == s;
    }
  }

  /** Splitting at one separator splits the two sides independently. */
  lemma {:induction false} SplitAppend(a: string, b: string, sep: char)
    ensures Split(a + [sep] + b, sep) == Split(a, sep) + Split(b, sep)
  {
    if a == [] {
      assert a + [sep] + b == [sep] + b;
      SplitSep(b, sep);
    } else {
      var t := a[1..] + [sep] + b;
      assert a + [sep] + b == [a[0]] + t;
      assert a == [a[0]] + a[1..];
      SplitAppend(a[1..], b, sep);
      if a[0] == sep {
        SplitSep(t, sep);
        SplitSep(a[1..], sep);
      } else {
        SplitChar(a[0], t, sep);
        SplitChar(a[0], a[1..], sep);
        JoinHead([a[0]], Split(a[1..], sep), Split(b, sep));
      }
    }
  }

  lemma SplitSep(t: string, sep: char)
    ensures Split([sep] + t, sep) == [""] + Split(t, sep)
  {
    assert ([sep] + t)[1..] == t;
  }

  lemma SplitChar(c: char, t: string, sep: char)
    requires c != sep
    ensures var x := Split(t, sep); Split([c] + t, sep) == [[c] + x[0]] + x[1..]
  {
    assert ([c] + t)[1..] == t;
  }

  lemma JoinHead(c: string, x: seq<string>, y: seq<string>)
    requires |x| >= 1
    ensures [c + (x + y)[0]] + (x + y)[1..] == ([c + x[0]] + x[1..]) + y
  {
    assert (x + y)[0] == x[0] && (x + y)[1..] == x[1..] + y;
  }

  /** `split` inverts `join` for pieces free of the separator. */
  lemma {:induction false} SplitJoin(parts: seq<string>, sep: char)
    requires |parts| >= 1
    requires forall i :: 0 <= i < |parts| ==> sep !in parts[i]
    ensures Split(Join(parts, sep), sep) == parts
  {
    if |parts| == 1 {
      SplitNoSeparator(parts[0], sep);
    } else {
      SplitJoin(parts[1..], sep);
      SplitNoSeparator(parts[0], sep);
      SplitAppend(parts[0], Join(parts[1..], sep), sep);
    }
  }

  /** `s.split(sep, 1)` on a string that holds the separator. */
  function SplitOnce(s: string, sep: char): (r: (string, string))
    requires sep in s
    ensures sep !in r.0 && s == r.0 + [sep] + r.1
  {
    if s[0] == sep then ("", s[1..])
    else
      assert sep in s[1..];
      var (a, b) := SplitOnce(s[1..], sep);
      ([s[0]] + a, b)
  }

  /** `s.rfind(c)`: the last index of `c`, or -1. */
  function RFind(s: string, c: char): (r: int)
    ensures -1 <= r < |s|
    ensures r == -1 <==> c !in s
    ensures r >= 0 ==> s[r] == c && c !in s[r + 1..]
  {
    if s == [] then -1
    else if s[|s| - 1] == c then |s| - 1
    else
      var r := RFind(s[..|s| - 1], c);
      assert s[..|s| - 1] + [s[|s| - 1]] == s;
      if r >= 0 then assert s[r + 1..] == s[..|s| - 1][r + 1..] + [s[|s| - 1]]; r
      else r
  }
}
