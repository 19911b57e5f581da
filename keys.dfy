/** The key scheme and the input validators of `src/common.py`: how job keys
    are built and taken apart, and which filenames, identifiers and URIs the
    handlers accept. All of it is pure string work. */
module Keys {
  import opened Wrappers
  import opened Text
  import opened PosixPath

  const SupportedInputFormat: string := "xlsx"
  const XlsxSuffix: string := ".xlsx"
  const ResultObjectName: string := "result"

  predicate IsLowerHexDigit(c: char) {
    '0' <= c <= '9' || 'a' <= c <= 'f'
  }

  /** A SHA-256 hex digest as `hashlib` prints it: 64 lower-case hex digits. */
  predicate IsDigest(s: string) {
    |s| == 64 && forall i :: 0 <= i < |s| ==> IsLowerHexDigit(s[i])
  }

  type Digest = s: string | IsDigest(s) witness seq(64, _ => '0')

  /** `join_key(prefix, name)`: the name under the prefix, with the prefix's
      surrounding slashes ignored; an empty prefix leaves the bare name. */
  function JoinKey(prefix: string, name: string): string {
    var p := StripSlashes(prefix);
    if p == "" then name else p + "/" + name
  }

  /** The joined key ends with the name, and starts with the stripped prefix
      and a slash unless that prefix is empty, when it is the bare name. */
  lemma JoinKeyShape(prefix: string, name: string)
    ensures EndsWith(JoinKey(prefix, name), name)
    ensures JoinKey(prefix, name) == name <==> StripSlashes(prefix) == ""
    ensures StripSlashes(prefix) != "" ==> StartsWith(JoinKey(prefix, name), StripSlashes(prefix) + "/")
  {
    var p := StripSlashes(prefix);
    if p != "" {
      assert (p + "/" + name)[|p + "/" + name| - |name|..] == name;
    }
  }

  /** Under a prefix without slashes the joined key is `{prefix}/{name}`. */
  lemma JoinKeyPlain(prefix: string, name: string)
    requires prefix != "" && '/' !in prefix
    ensures JoinKey(prefix, name) == prefix + "/" + name
  {
    StripSlashesFixpoint(prefix);
  }

  /** Slashes around the prefix make no difference. */
  lemma JoinKeyIgnoresSlashes(prefix: string, name: string)
    ensures JoinKey(prefix, name) == JoinKey(StripSlashes(prefix), name)
    ensures JoinKey("/" + prefix + "/", name) == JoinKey(prefix, name)
  {
    StripSlashesFixpoint(prefix);
    StripOneTrailingSlash(prefix);
  }

  lemma StripOneTrailingSlash(p: string)
    ensures StripSlashes("/" + p + "/") == StripSlashes(p)
  {
    assert "/" + p + "/" == "/" + (p + "/");
    LStripConsSlash(p + "/");
    LStripAppendSlash(p);
    RStripSnocSlash(LStrip(p, IsSlash));
  }

  lemma LStripConsSlash(t: string)
    ensures LStrip("/" + t, IsSlash) == LStrip(t, IsSlash)
  {
    assert ("/" + t)[1..] == t;
  }

  lemma RStripSnocSlash(t: string)
    ensures RStrip(t + "/", IsSlash) == RStrip(t, IsSlash)
  {
    assert (t + "/")[..|t|] == t;
  }

  /** Stripping leading slashes commutes with appending a slash, unless the
      whole string is slashes, when both sides end up as no text at all. */
  lemma {:induction false} LStripAppendSlash(p: string)
    ensures LStrip(p + "/", IsSlash) == (if LStrip(p, IsSlash) == "" then "" else LStrip(p, IsSlash) + "/")
  {
    if p == [] {
      assert LStrip("/", IsSlash) == LStrip("/"[1..], IsSlash);
    } else if p[0] == '/' {
      assert (p + "/")[1..] == p[1..] + "/";
      LStripAppendSlash(p[1..]);
    } else {
    }
  }

  /** `build_object_key(hash, filename)`: the source object's key, which for a
      digest is `{hash}/{filename}`. */
  function BuildObjectKey(fileHash: string, filename: string): (r: string)
    ensures '/' !in fileHash && fileHash != "" ==> r == fileHash + "/" + filename
  {
    StripSlashesFixpoint(fileHash);
    JoinKey(fileHash, filename)
  }

  /** `prefix_for_key(key)`: the key's parent path, `""` when it has none. */
  function PrefixForKey(key: string): (r: string)
    ensures '/' !in key ==> r == ""
    ensures r != "."
  {
    ParentWithoutSlashIf(key);
    var parent := Parent(key);
    if parent == "." then "" else parent
  }

  lemma ParentWithoutSlashIf(key: string)
    ensures '/' !in key ==> Parent(key) == "."
  {
    if '/' !in key { ParentWithoutSlash(key); }
  }

  /** The parent of a key joined under a plain prefix is that prefix, and its
      name is the joined name. */
  lemma PrefixOfJoin(prefix: string, name: string)
    requires prefix != "" && prefix != "." && '/' !in prefix
    requires name != "" && name != "." && '/' !in name
    ensures PrefixForKey(JoinKey(prefix, name)) == prefix
    ensures Name(JoinKey(prefix, name)) == name
  {
    StripSlashesFixpoint(prefix);
    PartsOfPair(prefix, name);
  }

  /** A digest is a plain prefix: not empty, not `.`, no slash. */
  lemma DigestIsPlain(h: string)
    requires IsDigest(h)
    ensures h != "" && h != "." && '/' !in h
  {
    assert h[0] != '.';
  }

  predicate HasXlsxSuffix(s: string) {
    EndsWithIgnoringCase(s, XlsxSuffix)
  }

  /** `sanitize_filename(raw)`: no name gives `""`; otherwise the last path
      component, which must end in `.xlsx` whatever its case. */
  function SanitizeFilename(raw: Option<string>): (r: Result<string>)
    ensures r == Ok("") <==> raw.None? || raw.value == "" || Name(raw.value) == ""
    ensures r.Ok? && r.value != "" ==>
      r.value == Name(raw.value) && '/' !in r.value && HasXlsxSuffix(r.value)
    ensures r.Err? <==> raw.Some? && Name(raw.value) != "" && !HasXlsxSuffix(Name(raw.value))
    ensures r.Err? ==> r.error == FilenameNotXlsx
  {
    if raw.None? || raw.value == "" then Ok("")
    else
      var candidate := Name(raw.value);
      if candidate == "" then Ok("")
      else if !HasXlsxSuffix(candidate) then Err(FilenameNotXlsx)
      else Ok(candidate)
  }

  /** A sanitized filename is a plain path part. */
  lemma SanitizedIsPlain(raw: Option<string>)
    requires SanitizeFilename(raw).Ok? && SanitizeFilename(raw).value != ""
    ensures var n := SanitizeFilename(raw).value; n != "." && '/' !in n && Name(n) == n
  {
    PartsOfName(SanitizeFilename(raw).value);
  }

  // ---- is_valid_sha256: the grammar of Python's int(value, 16) ----

  predicate IsHexDigit(c: char) {
    '0' <= c <= '9' || 'a' <= c <= 'f' || 'A' <= c <= 'F'
  }

  /** Hex digits, with single underscores allowed between two digits. */
  predicate HexDigitRun(s: string) {
    |s| >= 1 && IsHexDigit(s[0]) &&
    (|s| == 1 || HexDigitRun(s[1..]) || (s[1] == '_' && HexDigitRun(s[2..])))
  }

  /** The digits after an optional `0x`/`0X` prefix, which may itself be
      followed by one underscore. */
  predicate HexBody(u: string) {
    if |u| >= 2 && u[0] == '0' && (u[1] == 'x' || u[1] == 'X') then
      var v := u[2..];
      HexDigitRun(if |v| >= 1 && v[0] == '_' then v[1..] else v)
    else HexDigitRun(u)
  }

  /** The white space `int()` skips around its digits. A string with a
      non-ASCII character has its Unicode white space turned into blanks
      first; ASCII characters are left alone and only C's `isspace` set is
      skipped, so the separators U+001C..U+001F, which `str.strip()` drops,
      stop the parse. */
  predicate IsIntSpace(c: char) {
    IsSpace(c) && !('\U{1c}' <= c <= '\U{1f}')
  }

  /** The string `int()` parses once the white space around it is gone. */
  function IntStrip(s: string): string {
    RStrip(LStrip(s, IsIntSpace), IsIntSpace)
  }

  /** `int(s, 16)` succeeds: white space around, an optional sign, then the
      body. Non-ASCII decimal digits, which Python also takes, are not
      accepted here. */
  predicate ParsesAsHexInt(s: string) {
    var t := IntStrip(s);
    HexBody(if |t| >= 1 && (t[0] == '+' || t[0] == '-') then t[1..] else t)
  }

  /** `is_valid_sha256(value)`: 64 characters that `int(value, 16)` accepts. */
  function IsValidSha256(value: string): (r: bool)
    ensures r ==> |value| == 64
    ensures IsDigest(value) ==> r
    ensures r ==> '/' !in value && value != "." && value != ".."
  {
    DigestParses(value);
    AcceptedHasNoSlash(value);
    |value| == 64 && ParsesAsHexInt(value)
  }

  lemma DigestParses(value: string)
    ensures IsDigest(value) ==> ParsesAsHexInt(value)
  {
    if IsDigest(value) {
      assert IsLowerHexDigit(value[0]) && IsLowerHexDigit(value[1]) && IsLowerHexDigit(value[63]);
      AllHexIsRun(value);
      PlainRunParses(value);
    }
  }

  /** Hex digits with nothing around them, no sign and no `0x`, parse. */
  lemma PlainRunParses(s: string)
    requires |s| >= 2 && HexDigitRun(s) && !IsSpace(s[|s| - 1])
    requires !(s[0] == '0' && (s[1] == 'x' || s[1] == 'X'))
    ensures ParsesAsHexInt(s)
  {
    UnpaddedIntStrip(s);
    assert HexBody(s);
  }

  lemma {:induction false} AllHexIsRun(s: string)
    requires |s| >= 1 && forall i :: 0 <= i < |s| ==> IsLowerHexDigit(s[i])
    ensures HexDigitRun(s)
  {
    if |s| > 1 { AllHexIsRun(s[1..]); }
  }

  lemma {:induction false} RunHasNoSlash(s: string)
    requires HexDigitRun(s)
    ensures '/' !in s && '.' !in s
  {
    if |s| > 1 {
      if HexDigitRun(s[1..]) {
        RunHasNoSlash(s[1..]);
      } else {
        RunHasNoSlash(s[2..]);
        assert s == [s[0], s[1]] + s[2..];
      }
    }
    assert s == [s[0]] + s[1..];
  }

  /** Whatever `int(s, 16)` accepts holds no slash: an accepted identifier
      cannot reach outside its own prefix of the bucket. */
  lemma AcceptedHasNoSlash(value: string)
    ensures ParsesAsHexInt(value) ==> '/' !in value && value != "." && value != ".."
  {
    if ParsesAsHexInt(value) {
      SignedHasNoSlash(IntStrip(value));
      IntStripKeeps(value);
      assert value == "." || value == ".." ==> '.' in value;
    }
  }

  lemma SignedHasNoSlash(t: string)
    requires HexBody(if |t| >= 1 && (t[0] == '+' || t[0] == '-') then t[1..] else t)
    ensures '/' !in t && '.' !in t
  {
    if |t| >= 1 && (t[0] == '+' || t[0] == '-') {
      BodyHasNoSlash(t[1..]);
      assert t == [t[0]] + t[1..];
    } else {
      BodyHasNoSlash(t);
    }
  }

  lemma BodyHasNoSlash(u: string)
    requires HexBody(u)
    ensures '/' !in u && '.' !in u
  {
    if |u| >= 2 && u[0] == '0' && (u[1] == 'x' || u[1] == 'X') {
      var v := u[2..];
      var w := if |v| >= 1 && v[0] == '_' then v[1..] else v;
      RunHasNoSlash(w);
      assert v == w || v == ['_'] + w;
      assert u == u[..2] + v;
    } else {
      RunHasNoSlash(u);
    }
  }

  /** `int()` drops no character other than its white space. */
  lemma IntStripKeeps(value: string)
    ensures forall c :: !IsIntSpace(c) && c in value ==> c in IntStrip(value)
  {
    var l := LStrip(value, IsIntSpace);
    var k := |value| - |l|;
    var t := RStrip(l, IsIntSpace);
    forall i | 0 <= i < |value| && !IsIntSpace(value[i])
      ensures value[i] in t
    {
      assert i >= k;
      assert l[i - k] == value[i];
      assert i - k < |t|;
      assert t[i - k] == value[i];
    }
  }

  /** Python's `int(value, 16)` also takes upper-case digits, a sign, a `0x`
      prefix and underscores between digits, so `is_valid_sha256` accepts
      identifiers that are not digests. */
  lemma AcceptsUpperCase()
    ensures IsValidSha256(seq(64, _ => 'A'))
  {
    var s := seq(64, _ => 'A');
    UniformRun(s, 'A');
    UnpaddedIntStrip(s);
  }

  lemma AcceptsHexPrefix()
    ensures IsValidSha256("0x" + seq(62, _ => 'f'))
  {
    var s := "0x" + seq(62, _ => 'f');
    UniformRun(s[2..], 'f');
    UnpaddedIntStrip(s);
  }

  lemma AcceptsSign()
    ensures IsValidSha256("-" + seq(63, _ => '1'))
  {
    var s := "-" + seq(63, _ => '1');
    UniformRun(s[1..], '1');
    UnpaddedIntStrip(s);
  }

  lemma AcceptsUnderscore()
    ensures IsValidSha256("0_" + seq(62, _ => '1'))
  {
    var t := seq(62, _ => '1');
    var s := "0_" + t;
    assert s[2..] == t && s[0] == '0' && s[1] == '_' && s[63] == '1';
    UniformRun(t, '1');
    UnderscoreRun(s);
    PlainRunParses(s);
  }

  /** A digit, an underscore and a run make a run. */
  lemma UnderscoreRun(s: string)
    requires |s| >= 3 && IsHexDigit(s[0]) && s[1] == '_' && HexDigitRun(s[2..])
    ensures HexDigitRun(s)
  {
    assert s[1..][0] == '_' && s[1..][1..] == s[2..];
  }

  lemma RejectsNonHex(s: string)
    requires |s| == 64 && s[0] == '0' && s[1] == 'x' && !IsHexDigit(s[2]) && s[2] != '_' && !IsSpace(s[63])
    ensures !IsValidSha256(s)
  {
    UnpaddedIntStrip(s);
    NoRunFrom(s[2..]);
    assert !HexBody(s);
  }

  /** A string without white space at either end is left alone by
      `strip()` and by `int()`. */
  lemma UnpaddedStrip(s: string)
    requires |s| >= 1 && !IsSpace(s[0]) && !IsSpace(s[|s| - 1])
    ensures Strip(s) == s
  {
    StripFixpoint(s);
  }

  lemma UnpaddedIntStrip(s: string)
    requires |s| >= 1 && !IsIntSpace(s[0]) && !IsIntSpace(s[|s| - 1])
    ensures IntStrip(s) == s
  {
    assert LStrip(s, IsIntSpace) == s;
  }

  /** `int()` does not skip the ASCII separators that `str.strip()` drops: an
      identifier that starts with U+001C is refused, though it is a digit run
      once stripped. */
  lemma RejectsSeparator()
    ensures !IsValidSha256("\U{1c}" + seq(63, _ => '1'))
    ensures Strip("\U{1c}" + seq(63, _ => '1')) == seq(63, _ => '1')
  {
    var t := seq(63, _ => '1');
    var s := "\U{1c}" + t;
    assert s[0] == '\U{1c}' && s[63] == '1' && s[1..] == t;
    SeparatorRefused(s);
    SeparatorStripped(s);
  }

  lemma SeparatorRefused(s: string)
    requires |s| >= 2 && s[0] == '\U{1c}' && s[|s| - 1] == '1'
    ensures !ParsesAsHexInt(s)
  {
    UnpaddedIntStrip(s);
    NoRunFrom(s);
  }

  lemma SeparatorStripped(s: string)
    requires |s| >= 2 && s[0] == '\U{1c}' && s[1] == '1' && s[|s| - 1] == '1'
    ensures Strip(s) == s[1..]
  {
    assert LStrip(s, IsSpace) == LStrip(s[1..], IsSpace);
    UnpaddedStrip(s[1..]);
  }

  /** A run cannot start with a character that is not a hex digit. */
  lemma NoRunFrom(v: string)
    requires |v| >= 1 && !IsHexDigit(v[0])
    ensures !HexDigitRun(v)
  {
  }

  lemma {:induction false} UniformRun(s: string, c: char)
    requires |s| >= 1 && IsHexDigit(c) && forall i :: 0 <= i < |s| ==> s[i] == c
    ensures HexDigitRun(s)
  {
    if |s| > 1 { UniformRun(s[1..], c); }
  }

  /** `parse_s3_uri(uri)`: the bucket and the key of an `s3://bucket/key` URI;
      the key is empty when there is no slash after the bucket. */
  function ParseS3Uri(uri: string): (r: Result<(string, string)>)
    ensures r.Err? <==> !StartsWith(uri, "s3://") || |uri| == 5 || uri[5] == '/'
    ensures r.Err? ==> r.error == InvalidS3Uri
    ensures r.Ok? ==> var (b, k) := r.value;
      b != "" && '/' !in b &&
      (uri == "s3://" + b + "/" + k || (k == "" && uri == "s3://" + b))
  {
    if !StartsWith(uri, "s3://") then Err(InvalidS3Uri)
    else
      var rest := uri[5..];
      assert uri == "s3://" + rest;
      var (bucket, key) := if '/' !in rest then (rest, "") else SplitOnce(rest, '/');
      if bucket == "" then Err(InvalidS3Uri) else Ok((bucket, key))
  }

  /** `f"s3://{bucket}/{key}"`, the URIs the handlers report. */
  function S3Uri(bucket: string, key: string): string {
    "s3://" + bucket + "/" + key
  }

  /** Building a URI from a bucket and a key and parsing it gives them back. */
  lemma {:induction false} ParseS3UriRoundTrip(bucket: string, key: string)
    requires bucket != "" && '/' !in bucket
    ensures ParseS3Uri(S3Uri(bucket, key)) == Ok((bucket, key))
    ensures ParseS3Uri("s3://" + bucket) == Ok((bucket, ""))
  {
    var uri := "s3://" + bucket + "/" + key;
    var rest := uri[5..];
    assert rest == bucket + "/" + key;
    assert rest[|bucket|] == '/';
    SplitOnceAt(bucket, key);
    assert ("s3://" + bucket)[5..] == bucket;
  }

  lemma {:induction false} SplitOnceAt(a: string, b: string)
    requires '/' !in a
    ensures '/' in a + "/" + b && SplitOnce(a + "/" + b, '/') == (a, b)
  {
    assert (a + "/" + b)[|a|] == '/';
    if a != [] {
      assert (a + "/" + b)[1..] == a[1..] + "/" + b;
      assert '/' !in a[1..];
      SplitOnceAt(a[1..], b);
      assert [a[0]] + a[1..] == a;
    }
  }
}
