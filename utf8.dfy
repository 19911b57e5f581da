/** UTF-8, as Python's `str.encode("utf-8")` and strict `bytes.decode("utf-8")`
    apply it to the result marker's body.

    The decoder accepts exactly the well-formed byte sequences of the Unicode
    standard (no overlong forms, no surrogates, nothing above U+10FFFF), which
    is what Python's strict decoder accepts. */
module Utf8 {
  import opened Wrappers

  function EncodeChar(c: char): (r: seq<byte>)
    ensures 1 <= |r| <= 4
  {
    var n := c as int;
    if n < 0x80 then [n as byte]
    else if n < 0x800 then
      [(0xC0 + n / 0x40) as byte, (0x80 + n % 0x40) as byte]
    else if n < 0x1_0000 then
      [(0xE0 + n / 0x1000) as byte, (0x80 + n / 0x40 % 0x40) as byte, (0x80 + n % 0x40) as byte]
    else
      [(0xF0 + n / 0x4_0000) as byte, (0x80 + n / 0x1000 % 0x40) as byte,
       (0x80 + n / 0x40 % 0x40) as byte, (0x80 + n % 0x40) as byte]
  }

  function Encode(s: string): seq<byte> {
    if s == [] then [] else EncodeChar(s[0]) + Encode(s[1..])
  }

  predicate IsContinuation(b: byte) {
    0x80 <= b < 0xC0
  }

  /** The character at the start of `b` and the number of bytes it takes, or
      `None` when `b` does not start with a well-formed sequence. */
  function DecodeChar(b: seq<byte>): (r: Option<(char, nat)>)
    requires b != []
    ensures r.Some? ==> 1 <= r.value.1 <= |b| && r.value.1 <= 4
  {
    var b0 := b[0] as int;
    if b0 < 0x80 then Some((b0 as char, 1))
    else if 0xC2 <= b0 <= 0xDF then
      if |b| >= 2 && IsContinuation(b[1]) then
        Some((((b0 - 0xC0) * 0x40 + (b[1] as int - 0x80)) as char, 2))
      else None
    else if 0xE0 <= b0 <= 0xEF then
      var lo := if b0 == 0xE0 then 0xA0 else 0x80;
      var hi := if b0 == 0xED then 0x9F else 0xBF;
      if |b| >= 3 && lo <= b[1] as int <= hi && IsContinuation(b[2]) then
        Some((((b0 - 0xE0) * 0x1000 + (b[1] as int - 0x80) * 0x40 + (b[2] as int - 0x80)) as char, 3))
      else None
    else if 0xF0 <= b0 <= 0xF4 then
      var lo := if b0 == 0xF0 then 0x90 else 0x80;
      var hi := if b0 == 0xF4 then 0x8F else 0xBF;
      if |b| >= 4 && lo <= b[1] as int <= hi && IsContinuation(b[2]) && IsContinuation(b[3]) then
        Some((((b0 - 0xF0) * 0x4_0000 + (b[1] as int - 0x80) * 0x1000
               + (b[2] as int - 0x80) * 0x40 + (b[3] as int - 0x80)) as char, 4))
      else None
    else None
  }

  function Decode(b: seq<byte>): Option<string>
    decreases |b|
  {
    if b == [] then Some("")
    else match DecodeChar(b)
      case None => None
      case Some((c, k)) =>
        match Decode(b[k..])
        case None => None
        case Some(s) => Some([c] + s)
  }

  /** Decoding reads back the character that was encoded, and no more. */
  lemma DecodeEncodedChar(c: char, rest: seq<byte>)
    ensures DecodeChar(EncodeChar(c) + rest) == Some((c, |EncodeChar(c)|))
  {
    var n := c as int;
    if n < 0x80 {
    } else if n < 0x800 {
      DecodeTwo(c, rest);
    } else if n < 0x1_0000 {
      DecodeThree(c, rest);
    } else {
      DecodeFour(c, rest);
    }
  }

  lemma DecodeTwo(c: char, rest: seq<byte>)
    requires 0x80 <= c as int < 0x800
    ensures DecodeChar(EncodeChar(c) + rest) == Some((c, 2))
  {
    var n := c as int;
    var q, r := n / 0x40, n % 0x40;
    assert n == q * 0x40 + r && 2 <= q < 0x20 && 0 <= r < 0x40;
    var b := EncodeChar(c) + rest;
    assert b[0] as int == 0xC0 + q && b[1] as int == 0x80 + r;
  }

  lemma DecodeThree(c: char, rest: seq<byte>)
    requires 0x800 <= c as int < 0x1_0000
    ensures DecodeChar(EncodeChar(c) + rest) == Some((c, 3))
  {
    var n := c as int;
    var q, m, r := n / 0x1000, n / 0x40 % 0x40, n % 0x40;
    assert n == q * 0x1000 + m * 0x40 + r && 0 <= q < 0x10 && 0 <= m < 0x40 && 0 <= r < 0x40;
    var b := EncodeChar(c) + rest;
    assert b[0] as int == 0xE0 + q && b[1] as int == 0x80 + m && b[2] as int == 0x80 + r;
  }

  lemma DecodeFour(c: char, rest: seq<byte>)
    requires 0x1_0000 <= c as int
    ensures DecodeChar(EncodeChar(c) + rest) == Some((c, 4))
  {
    var n := c as int;
    FourParts(n);
    var b := EncodeChar(c) + rest;
    assert b[0] as int == 0xF0 + n / 0x4_0000 && b[1] as int == 0x80 + n / 0x1000 % 0x40;
    assert b[2] as int == 0x80 + n / 0x40 % 0x40 && b[3] as int == 0x80 + n % 0x40;
  }

  /** A supplementary-plane code point split into the four groups of bits the
      four bytes carry. */
  lemma FourParts(n: int)
    requires 0x1_0000 <= n <= 0x10_FFFF
    ensures var q, h, m, r := n / 0x4_0000, n / 0x1000 % 0x40, n / 0x40 % 0x40, n % 0x40;
      n == q * 0x4_0000 + h * 0x1000 + m * 0x40 + r &&
      0 <= q <= 4 && 0 <= h < 0x40 && 0 <= m < 0x40 && 0 <= r < 0x40 &&
      (q == 0 ==> h >= 0x10) && (q == 4 ==> h <= 0x0F)
  {
    var a, r := n / 0x40, n % 0x40;
    var b, m := a / 0x40, a % 0x40;
    var q, h := b / 0x40, b % 0x40;
    assert n == b * 0x1000 + m * 0x40 + r;
    assert n / 0x1000 == b;
    assert n == q * 0x4_0000 + h * 0x1000 + m * 0x40 + r;
    assert n / 0x4_0000 == q;
    assert n / 0x40 % 0x40 == m;
  }

  /** Encoding the character a well-formed sequence stands for gives back
      that sequence. */
  lemma EncodeDecodedChar(b: seq<byte>)
    requires b != [] && DecodeChar(b).Some?
    ensures EncodeChar(DecodeChar(b).value.0) == b[..DecodeChar(b).value.1]
  {
    var k := DecodeChar(b).value.1;
    if k == 2 {
      EncodeTwo(b);
    } else if k == 3 {
      EncodeThree(b);
    } else if k == 4 {
      EncodeFour(b);
    }
  }

  lemma EncodeTwo(b: seq<byte>)
    requires |b| >= 2 && 0xC2 <= b[0] <= 0xDF && IsContinuation(b[1])
    ensures DecodeChar(b).Some? && EncodeChar(DecodeChar(b).value.0) == b[..2]
  {
    var q, r := b[0] as int - 0xC0, b[1] as int - 0x80;
    var n := q * 0x40 + r;
    assert DecodeChar(b).value.0 as int == n;
    assert n / 0x40 == q && n % 0x40 == r;
  }

  lemma EncodeThree(b: seq<byte>)
    requires |b| >= 3 && 0xE0 <= b[0] <= 0xEF && IsContinuation(b[1]) && IsContinuation(b[2])
    requires b[0] == 0xE0 ==> b[1] >= 0xA0
    requires b[0] == 0xED ==> b[1] <= 0x9F
    ensures DecodeChar(b).Some? && EncodeChar(DecodeChar(b).value.0) == b[..3]
  {
    var q, m, r := b[0] as int - 0xE0, b[1] as int - 0x80, b[2] as int - 0x80;
    var n := q * 0x1000 + m * 0x40 + r;
    assert DecodeChar(b).value.0 as int == n;
    assert n / 0x40 == q * 0x40 + m && n % 0x40 == r;
    assert (q * 0x40 + m) % 0x40 == m;
    assert n / 0x1000 == q;
  }

  lemma EncodeFour(b: seq<byte>)
    requires |b| >= 4 && 0xF0 <= b[0] <= 0xF4
    requires IsContinuation(b[1]) && IsContinuation(b[2]) && IsContinuation(b[3])
    requires b[0] == 0xF0 ==> b[1] >= 0x90
    requires b[0] == 0xF4 ==> b[1] <= 0x8F
    ensures DecodeChar(b).Some? && EncodeChar(DecodeChar(b).value.0) == b[..4]
  {
    var q, h, m, r := b[0] as int - 0xF0, b[1] as int - 0x80, b[2] as int - 0x80, b[3] as int - 0x80;
    var n := q * 0x4_0000 + h * 0x1000 + m * 0x40 + r;
    assert DecodeChar(b).value.0 as int == n;
    var hi := q * 0x40 + h;
    var mid := hi * 0x40 + m;
    assert n == mid * 0x40 + r;
    assert n / 0x40 == mid && n % 0x40 == r;
    assert mid % 0x40 == m;
    assert n / 0x1000 == hi;
    assert hi % 0x40 == h;
    assert n / 0x4_0000 == q;
  }

  /** Text written as UTF-8 reads back as the same text. */
  lemma {:induction false} DecodeEncode(s: string)
    ensures Decode(Encode(s)) == Some(s)
  {
    if s != [] {
      DecodeEncodedChar(s[0], Encode(s[1..]));
      assert (EncodeChar(s[0]) + Encode(s[1..]))[|EncodeChar(s[0])|..] == Encode(s[1..]);
      DecodeEncode(s[1..]);
      assert [s[0]] + s[1..] == s;
    }
  }

  /** Bytes that read as text are exactly that text's encoding: the decoder
      accepts nothing but encodings. */
  lemma {:induction false} EncodeDecode(b: seq<byte>)
    requires Decode(b).Some?
    ensures Encode(Decode(b).value) == b
    decreases |b|
  {
    if b != [] {
      DecodeStep(b);
      var c, k := DecodeChar(b).value.0, DecodeChar(b).value.1;
      EncodeDecodedChar(b);
      EncodeDecode(b[k..]);
      Reassemble(b, k, c, Decode(b[k..]).value);
    }
  }

  lemma Reassemble(b: seq<byte>, k: nat, c: char, t: string)
    requires k <= |b| && EncodeChar(c) == b[..k] && Encode(t) == b[k..]
    ensures Encode([c] + t) == b
  {
    EncodeStep([c] + t);
    assert ([c] + t)[1..] == t;
    assert b[..k] + b[k..] == b;
  }

  /** A non-empty decoding is the first character before the decoding of
      the bytes after it. */
  lemma DecodeStep(b: seq<byte>)
    requires b != [] && Decode(b).Some?
    ensures DecodeChar(b).Some?
    ensures var (c, k) := DecodeChar(b).value;
      Decode(b[k..]).Some? && Decode(b).value == [c] + Decode(b[k..]).value
  {
  }

  lemma EncodeStep(s: string)
    requires s != []
    ensures Encode(s) == EncodeChar(s[0]) + Encode(s[1..])
  {
  }
}
