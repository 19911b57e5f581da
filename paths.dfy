/** POSIX path parsing as Python's `pathlib.PurePosixPath` does it, for the
    three properties the handlers use: `name`, `parent` and `stem`.

    A path is a root (`""`, `"/"`, or exactly two slashes `"//"`) followed by
    its parts: the pieces between slashes, where empty pieces and `"."` are
    dropped and `".."` is kept. */
module PosixPath {
  import opened Text

  /** The root `posixpath.splitroot` finds. */
  function Root(p: string): (r: string)
    ensures r == "" || r == "/" || r == "//"
    ensures StartsWith(p, r)
    ensures r == "" <==> (p == [] || p[0] != '/')
  {
    if |p| >= 1 && p[0] == '/' then
      if |p| >= 2 && p[1] == '/' && !(|p| >= 3 && p[2] == '/') then "//" else "/"
    else ""
  }

  /** The pieces that survive as parts. */
  function Keep(pieces: seq<string>): (r: seq<string>)
    ensures forall i :: 0 <= i < |r| ==> r[i] != "" && r[i] != "." && r[i] in pieces
    ensures forall x :: x in pieces && x != "" && x != "." ==> x in r
  {
    if pieces == [] then []
    else
      var rest := Keep(pieces[1..]);
      assert forall x :: x in pieces[1..] ==> x in pieces;
      if pieces[0] == "" || pieces[0] == "." then rest else [pieces[0]] + rest
  }

  function Parts(p: string): (r: seq<string>)
    ensures forall i :: 0 <= i < |r| ==> r[i] != "" && r[i] != "." && '/' !in r[i]
  {
    var pieces := Split(p[|Root(p)|..], '/');
    var r := Keep(pieces);
    assert forall i :: 0 <= i < |r| ==> r[i] in pieces;
    r
  }

  /** `str()` of a path with the given root and parts. */
  function Render(root: string, parts: seq<string>): string {
    var s := root + Join(parts, '/');
    if s == "" then "." else s
  }

  /** `PurePosixPath(p).name`: the last part, or `""` when there is none. */
  function Name(p: string): (r: string)
    ensures '/' !in r && r != "."
  {
    var ps := Parts(p);
    if ps == [] then "" else ps[|ps| - 1]
  }

  /** `str(PurePosixPath(p).parent)`: the path without its last part; a path
      without parts is its own parent. */
  function Parent(p: string): string {
    var ps := Parts(p);
    if ps == [] then Render(Root(p), ps) else Render(Root(p), ps[..|ps| - 1])
  }

  /** The stem of a name: everything before its last dot, unless that dot is
      the first or the last character. */
  function StemOfName(name: string): (r: string)
    ensures |r| <= |name| && r == name[..|r|]
    ensures r != name ==> 0 < |r| < |name| - 1 && name[|r|] == '.' && '.' !in name[|r| + 1..]
  {
    var i := RFind(name, '.');
    if 0 < i < |name| - 1 then
      assert |name[..i]| == i;
      name[..i]
    else name
  }

  /** `PurePosixPath(p).stem`. */
  function Stem(p: string): string {
    StemOfName(Name(p))
  }

  /** A single part is a path whose only part is itself. */
  lemma {:induction false} PartsOfName(n: string)
    requires n != "" && n != "." && '/' !in n
    ensures Root(n) == "" && Parts(n) == [n]
    ensures Name(n) == n && Parent(n) == "."
  {
    SplitNoSeparator(n, '/');
    assert n[0] in n;
    assert n[|Root(n)|..] == n;
    assert Keep([n][1..]) == [];
    assert Parts(n)[..0] == [];
  }

  /** Keys without a slash have parent `"."`. */
  lemma {:induction false} ParentWithoutSlash(p: string)
    requires '/' !in p
    ensures Parent(p) == "."
  {
    if p == "" || p == "." {
      SplitNoSeparator(p, '/');
    } else {
      PartsOfName(p);
    }
  }

  /** `a/b` for two plain parts splits back into exactly those parts. */
  lemma {:induction false} PartsOfPair(a: string, b: string)
    requires a != "" && a != "." && '/' !in a
    requires b != "" && b != "." && '/' !in b
    ensures Parts(a + "/" + b) == [a, b]
    ensures Name(a + "/" + b) == b && Parent(a + "/" + b) == a
  {
    var p := a + "/" + b;
    assert p[0] == a[0] && a[0] in a;
    assert Root(p) == "";
    assert p[|Root(p)|..] == p;
    SplitAppend(a, b, '/');
    SplitNoSeparator(a, '/');
    SplitNoSeparator(b, '/');
    assert Split(p, '/') == [a, b];
    assert Keep([a, b][1..]) == [b];
    assert Parts(p) == [a, b];
    assert Parts(p)[..1] == [a];
  }

  /** The stem of a name ending in `.xlsx` (in any case) is the name without
      that extension, except for the name `.xlsx` itself, whose stem is the
      whole name. */
  lemma StemOfXlsxName(n: string)
    requires EndsWithIgnoringCase(n, ".xlsx")
    ensures StemOfName(n) == if |n| > 5 then n[..|n| - 5] else n
  {
    var k := |n| - 5;
    assert Lower(n)[k..] == ".xlsx";
    assert n[k] == '.' by { assert LowerChar(n[k]) == Lower(n)[k] == '.'; }
    forall j | k < j < |n| ensures n[j] != '.' {
      assert LowerChar(n[j]) == Lower(n)[j] != '.';
    }
    assert '.' !in n[k + 1..];
  }
}
