/**
  UTF-8 as defined in section 3 of RFC 3629, which is what Python's
  `str.encode()` produces by default, together with the strict decoder that
  inverts it, and the 7-bit ASCII encoding used by `base64.b64decode` on text.
  A Dafny `char` is a Unicode scalar value, so every string here is encodable.
 */
module Utf8 {
  import opened Basics

  predicate IsContinuation(b: Byte) {
    0x80 <= b < 0xC0
  }

  /** The one to four octets of a single scalar value. */
  function EncodeScalar(c: char): (r: seq<Byte>)
    ensures 1 <= |r| <= 4
    ensures (|r| == 1) <==> (c as int) < 0x80
    ensures |r| == 1 ==> r[0] == c as int
    ensures forall i :: 1 <= i < |r| ==> IsContinuation(r[i])
  {
    var v := c as int;
    if v < 0x80 then
      [v]
    else if v < 0x800 then
      [0xC0 + v / 0x40, 0x80 + v % 0x40]
    else if v < 0x1_0000 then
      [0xE0 + v / 0x1000, 0x80 + (v / 0x40) % 0x40, 0x80 + v % 0x40]
    else
      [0xF0 + v / 0x4_0000, 0x80 + (v / 0x1000) % 0x40, 0x80 + (v / 0x40) % 0x40, 0x80 + v % 0x40]
  }

  /** `text.encode()`: the concatenation of the encodings of the scalar values. */
  function Encode(s: string): (r: seq<Byte>)
    ensures |s| <= |r| <= 4 * |s|
  {
    if s == [] then [] else EncodeScalar(s[0]) + Encode(s[1..])
  }

  predicate IsScalar(v: int) {
    0 <= v < 0xD800 || 0xE000 <= v < 0x11_0000
  }

  /**
    Decodes the first scalar value of `b` and says how many octets it took.
    Overlong forms, surrogates and values above U+10FFFF are rejected, as
    section 3 of RFC 3629 requires.
   */
  function DecodeFirst(b: seq<Byte>): (r: Option<(char, nat)>)
    requires |b| > 0
    ensures r.Some? ==> 1 <= r.value.1 <= |b|
  {
    var b0: int := b[0];
    if b0 < 0x80 then
      Some((b0 as char, 1))
    else if 0xC2 <= b0 < 0xE0 && |b| >= 2 && IsContinuation(b[1]) then
      var v := (b0 - 0xC0) * 0x40 + (b[1] as int - 0x80);
      Some((v as char, 2))
    else if 0xE0 <= b0 < 0xF0 && |b| >= 3 && IsContinuation(b[1]) && IsContinuation(b[2]) then
      var v := (b0 - 0xE0) * 0x1000 + (b[1] as int - 0x80) * 0x40 + (b[2] as int - 0x80);
      if v < 0x800 || !IsScalar(v) then None else Some((v as char, 3))
    else if 0xF0 <= b0 < 0xF5 && |b| >= 4 && IsContinuation(b[1]) && IsContinuation(b[2]) && IsContinuation(b[3]) then
      var v := (b0 - 0xF0) * 0x4_0000 + (b[1] as int - 0x80) * 0x1000 + (b[2] as int - 0x80) * 0x40 + (b[3] as int - 0x80);
      if v < 0x1_0000 || !IsScalar(v) then None else Some((v as char, 4))
    else
      None
  }

  /** Strict UTF-8 decoding: `None` when `b` is not well-formed UTF-8. */
  function Decode(b: seq<Byte>): (r: Option<string>)
    decreases |b|
  {
    if b == [] then Some([])
    else
      match DecodeFirst(b)
      case None => None
      case Some((c, n)) =>
        match Decode(b[n..])
        case None => None
        case Some(rest) => Some([c] + rest)
  }

  /** `text.encode('ascii')`: `None` when some character is outside 7-bit ASCII. */
  function EncodeAscii(s: string): (r: Option<seq<Byte>>)
    ensures r.Some? <==> forall i :: 0 <= i < |s| ==> (s[i] as int) < 0x80
    ensures r.Some? ==> |r.value| == |s| && forall i :: 0 <= i < |s| ==> r.value[i] == s[i] as int
  {
    if s == [] then Some([])
    else if (s[0] as int) >= 0x80 then None
    else
      match EncodeAscii(s[1..])
      case None => None
      case Some(rest) => Some([s[0] as int] + rest)
  }

  lemma DecodeFirstOfTwoOctets(c: char, rest: seq<Byte>)
    requires 0x80 <= c as int < 0x800
    ensures DecodeFirst(EncodeScalar(c) + rest) == Some((c, 2))
  {
    var v := c as int;
    assert v == (v / 0x40) * 0x40 + v % 0x40;
  }

  lemma DecodeFirstOfThreeOctets(c: char, rest: seq<Byte>)
    requires 0x800 <= c as int < 0x1_0000
    ensures DecodeFirst(EncodeScalar(c) + rest) == Some((c, 3))
  {
    var v := c as int;
    assert v / 0x40 == (v / 0x1000) * 0x40 + (v / 0x40) % 0x40;
    assert v == (v / 0x40) * 0x40 + v % 0x40;
  }

  lemma DecodeFirstOfFourOctets(c: char, rest: seq<Byte>)
    requires 0x1_0000 <= c as int
    ensures DecodeFirst(EncodeScalar(c) + rest) == Some((c, 4))
  {
    var v := c as int;
    assert v / 0x1000 == (v / 0x4_0000) * 0x40 + (v / 0x1000) % 0x40;
    assert v / 0x40 == (v / 0x1000) * 0x40 + (v / 0x40) % 0x40;
    assert v == (v / 0x40) * 0x40 + v % 0x40;
  }

  lemma DecodeFirstOfEncodeScalar(c: char, rest: seq<Byte>)
    ensures DecodeFirst(EncodeScalar(c) + rest) == Some((c, |EncodeScalar(c)|))
  {
    var v := c as int;
    if v < 0x80 {
    } else if v < 0x800 {
      DecodeFirstOfTwoOctets(c, rest);
    } else if v < 0x1_0000 {
      DecodeFirstOfThreeOctets(c, rest);
    } else {
      DecodeFirstOfFourOctets(c, rest);
    }
  }

  /** Round trip: decoding the UTF-8 encoding of a string gives the string back. */
  lemma {:induction false} DecodeEncode(s: string)
    ensures Decode(Encode(s)) == Some(s)
  {
    if s != [] {
      var e := EncodeScalar(s[0]);
      DecodeFirstOfEncodeScalar(s[0], Encode(s[1..]));
      assert (e + Encode(s[1..]))[|e|..] == Encode(s[1..]);
      DecodeEncode(s[1..]);
      assert [s[0]] + s[1..] == s;
    }
  }
}
