/**
  The base 64 encoding of section 4 of RFC 4648 (alphabet `A-Z a-z 0-9 + /`,
  padding `=`), as `base64.b64decode` reads it. Decoding here is strict: the
  input is a whole number of 4-character quanta and only the final quantum may
  carry padding. Like Python's decoder, it does not insist that the unused
  bits before the padding are zero.
 */
module Base64 {
  import opened Basics

  /** The pad character `=`. */
  const Pad: Byte := 61

  predicate IsAlphabet(b: Byte) {
    (65 <= b <= 90) || (97 <= b <= 122) || (48 <= b <= 57) || b == 43 || b == 47
  }

  /** The value of an alphabet character (Table 1 of RFC 4648). */
  function SextetValue(b: Byte): (v: int)
    requires IsAlphabet(b)
    ensures 0 <= v < 64
  {
    if 65 <= b <= 90 then b - 65
    else if 97 <= b <= 122 then b - 97 + 26
    else if 48 <= b <= 57 then b - 48 + 52
    else if b == 43 then 62
    else 63
  }

  /** The alphabet character of a 6-bit value (Table 1 of RFC 4648). */
  function SextetChar(v: int): (b: Byte)
    requires 0 <= v < 64
    ensures IsAlphabet(b) && b != Pad
    ensures SextetValue(b) == v
  {
    if v < 26 then 65 + v
    else if v < 52 then 97 + v - 26
    else if v < 62 then 48 + v - 52
    else if v == 62 then 43
    else 47
  }

  /** Three octets as four characters. */
  function EncodeGroup(x: Byte, y: Byte, z: Byte): (r: seq<Byte>)
    ensures |r| == 4 && forall i :: 0 <= i < 4 ==> IsAlphabet(r[i])
  {
    [SextetChar(x / 4), SextetChar((x % 4) * 16 + y / 16), SextetChar((y % 16) * 4 + z / 64), SextetChar(z % 64)]
  }

  /** `base64.b64encode`: the padded encoding of section 4 of RFC 4648. */
  function Encode(b: seq<Byte>): (r: seq<Byte>)
    ensures |r| == 4 * ((|b| + 2) / 3)
    decreases |b|
  {
    if |b| == 0 then []
    else if |b| == 1 then [SextetChar(b[0] / 4), SextetChar((b[0] % 4) * 16), Pad, Pad]
    else if |b| == 2 then
      [SextetChar(b[0] / 4), SextetChar((b[0] % 4) * 16 + b[1] / 16), SextetChar((b[1] % 16) * 4), Pad]
    else EncodeGroup(b[0], b[1], b[2]) + Encode(b[3..])
  }

  predicate AllAlphabet(q: seq<Byte>) {
    forall i :: 0 <= i < |q| ==> IsAlphabet(q[i])
  }

  /** The three octets carried by four alphabet characters. */
  function DecodeGroup(q: seq<Byte>): (r: seq<Byte>)
    requires |q| == 4 && AllAlphabet(q)
    ensures |r| == 3
  {
    var c0, c1, c2, c3 := SextetValue(q[0]), SextetValue(q[1]), SextetValue(q[2]), SextetValue(q[3]);
    [c0 * 4 + c1 / 16, (c1 % 16) * 16 + c2 / 4, (c2 % 4) * 64 + c3]
  }

  /** The last quantum: four characters, or three and `=`, or two and `==`. */
  function DecodeFinal(q: seq<Byte>): (r: Option<seq<Byte>>)
    requires |q| == 4
    ensures r.Some? ==> 1 <= |r.value| <= 3
  {
    if AllAlphabet(q) then Some(DecodeGroup(q))
    else if AllAlphabet(q[..3]) && q[3] == Pad then
      var c0, c1, c2 := SextetValue(q[0]), SextetValue(q[1]), SextetValue(q[2]);
      Some([c0 * 4 + c1 / 16, (c1 % 16) * 16 + c2 / 4])
    else if AllAlphabet(q[..2]) && q[2] == Pad && q[3] == Pad then
      var c0, c1 := SextetValue(q[0]), SextetValue(q[1]);
      Some([c0 * 4 + c1 / 16])
    else None
  }

  /** Decodes a whole number of quanta; only the last one may be padded. */
  function DecodeQuanta(s: seq<Byte>): (r: Option<seq<Byte>>)
    requires |s| % 4 == 0
    ensures r.Some? ==> |s| == 4 * ((|r.value| + 2) / 3)
    decreases |s|
  {
    if s == [] then Some([])
    else if |s| == 4 then DecodeFinal(s)
    else if !AllAlphabet(s[..4]) then None
    else
      match DecodeQuanta(s[4..])
      case None => None
      case Some(rest) => Some(DecodeGroup(s[..4]) + rest)
  }

  /** `base64.b64decode` on well-formed input; `None` is `binascii.Error`. */
  function Decode(s: seq<Byte>): (r: Option<seq<Byte>>)
    ensures r.Some? ==> |s| == 4 * ((|r.value| + 2) / 3)
  {
    if |s| % 4 != 0 then None else DecodeQuanta(s)
  }

  lemma DecodeGroupOfEncodeGroup(x: Byte, y: Byte, z: Byte)
    ensures DecodeGroup(EncodeGroup(x, y, z)) == [x, y, z]
  {
    var c1 := (x % 4) * 16 + y / 16;
    var c2 := (y % 16) * 4 + z / 64;
    assert c1 / 16 == x % 4 && c1 % 16 == y / 16;
    assert c2 / 4 == y % 16 && c2 % 4 == z / 64;
  }

  lemma DecodeFinalOfOne(x: Byte)
    ensures DecodeFinal(Encode([x])) == Some([x])
  {
    var s := Encode([x]);
    assert !AllAlphabet(s) by { assert !IsAlphabet(s[3]); }
    assert !AllAlphabet(s[..3]) by { assert !IsAlphabet(s[..3][2]); }
    assert AllAlphabet(s[..2]);
  }

  lemma DecodeFinalOfTwo(x: Byte, y: Byte)
    ensures DecodeFinal(Encode([x, y])) == Some([x, y])
  {
    var s := Encode([x, y]);
    assert !AllAlphabet(s) by { assert !IsAlphabet(s[3]); }
    assert AllAlphabet(s[..3]);
    var c1 := (x % 4) * 16 + y / 16;
    assert c1 / 16 == x % 4 && c1 % 16 == y / 16;
  }

  lemma DecodeQuantaOfOne(b: seq<Byte>)
    requires |b| == 1
    ensures DecodeQuanta(Encode(b)) == Some(b)
  {
    assert b == [b[0]];
    DecodeFinalOfOne(b[0]);
  }

  lemma DecodeQuantaOfTwo(b: seq<Byte>)
    requires |b| == 2
    ensures DecodeQuanta(Encode(b)) == Some(b)
  {
    assert b == [b[0], b[1]];
    DecodeFinalOfTwo(b[0], b[1]);
  }

  lemma EncodeOfThree(b: seq<Byte>)
    requires |b| == 3
    ensures Encode(b) == EncodeGroup(b[0], b[1], b[2])
  {
    assert Encode(b[3..]) == [];
  }

  lemma DecodeQuantaOfThree(b: seq<Byte>)
    requires |b| == 3
    ensures DecodeQuanta(Encode(b)) == Some(b)
  {
    var g := EncodeGroup(b[0], b[1], b[2]);
    EncodeOfThree(b);
    assert AllAlphabet(g);
    assert DecodeQuanta(g) == DecodeFinal(g) == Some(DecodeGroup(g));
    DecodeGroupOfEncodeGroup(b[0], b[1], b[2]);
    assert b == [b[0], b[1], b[2]];
  }

  lemma {:induction false} DecodeQuantaEncode(b: seq<Byte>)
    ensures DecodeQuanta(Encode(b)) == Some(b)
    decreases |b|
  {
    if |b| == 1 {
      DecodeQuantaOfOne(b);
    } else if |b| == 2 {
      DecodeQuantaOfTwo(b);
    } else if |b| == 3 {
      DecodeQuantaOfThree(b);
    } else if |b| > 3 {
      var s, g := Encode(b), EncodeGroup(b[0], b[1], b[2]);
      assert s == g + Encode(b[3..]);
      assert s[..4] == g;
      assert s[4..] == Encode(b[3..]);
      DecodeGroupOfEncodeGroup(b[0], b[1], b[2]);
      DecodeQuantaEncode(b[3..]);
      assert [b[0], b[1], b[2]] + b[3..] == b;
    }
  }

  /** An encoding uses nothing but the alphabet and the pad character, all of it 7-bit ASCII. */
  lemma {:induction false} EncodeIsAscii(b: seq<Byte>)
    ensures forall i :: 0 <= i < |Encode(b)| ==> (IsAlphabet(Encode(b)[i]) || Encode(b)[i] == Pad) && Encode(b)[i] < 0x80
    decreases |b|
  {
    if |b| > 2 {
      EncodeIsAscii(b[3..]);
      var g := EncodeGroup(b[0], b[1], b[2]);
      assert Encode(b) == g + Encode(b[3..]);
    }
  }

  /** Round trip: decoding the encoding of any octet string gives it back. */
  lemma DecodeEncode(b: seq<Byte>)
    ensures Decode(Encode(b)) == Some(b)
  {
    var s := Encode(b);
    var k := (|b| + 2) / 3;
    assert |s| == 4 * k;
    assert |s| % 4 == 0;
    DecodeQuantaEncode(b);
    assert Decode(s) == DecodeQuanta(s);
  }

  // ---------------------------------------------------------------------------
  // The converse: what the decoder accepts
  // ---------------------------------------------------------------------------

  lemma SextetCharOfValue(b: Byte)
    requires IsAlphabet(b)
    ensures SextetChar(SextetValue(b)) == b
  {
  }

  /**
    A padded last quantum leaves some bits of its last alphabet character
    unused: four of them before `==`, two of them before `=`. A canonical
    input has them all zero, as every encoding does.
   */
  predicate UnusedBitsZero(q: seq<Byte>)
    requires |q| == 4
  {
    (q[2] == Pad && q[3] == Pad && IsAlphabet(q[1]) ==> SextetValue(q[1]) % 16 == 0) &&
    (q[2] != Pad && q[3] == Pad && IsAlphabet(q[2]) ==> SextetValue(q[2]) % 4 == 0)
  }

  predicate Canonical(s: seq<Byte>) {
    |s| % 4 == 0 && |s| >= 4 ==> UnusedBitsZero(s[|s| - 4..])
  }

  /** A last quantum with its unused bits cleared. */
  function ClearFinal(q: seq<Byte>): (r: seq<Byte>)
    requires |q| == 4
    ensures |r| == 4 && UnusedBitsZero(r)
  {
    if q[2] == Pad && q[3] == Pad && IsAlphabet(q[1]) then [q[0], SextetChar(SextetValue(q[1]) / 16 * 16), Pad, Pad]
    else if q[3] == Pad && IsAlphabet(q[2]) then [q[0], q[1], SextetChar(SextetValue(q[2]) / 4 * 4), Pad]
    else q
  }

  /** `s` with the unused bits of its last quantum cleared; every other character is kept. */
  function ClearUnusedBits(s: seq<Byte>): (r: seq<Byte>)
    ensures |r| == |s|
  {
    if |s| % 4 == 0 && |s| >= 4 then s[..|s| - 4] + ClearFinal(s[|s| - 4..]) else s
  }

  /** Clearing the unused bits changes exactly the inputs that are not canonical, and makes them canonical. */
  lemma ClearUnusedBitsCanonical(s: seq<Byte>)
    ensures Canonical(ClearUnusedBits(s))
    ensures ClearUnusedBits(s) == s <==> Canonical(s)
  {
    if |s| % 4 == 0 && |s| >= 4 {
      var n, q := |s|, s[|s| - 4..];
      var r := ClearUnusedBits(s);
      assert r[n - 4..] == ClearFinal(q);
      assert s == s[..n - 4] + q;
      if q[2] == Pad && q[3] == Pad && IsAlphabet(q[1]) {
        SextetCharOfValue(q[1]);
        assert r == s <==> ClearFinal(q)[1] == q[1];
      } else if q[3] == Pad && IsAlphabet(q[2]) {
        SextetCharOfValue(q[2]);
        assert r == s <==> ClearFinal(q)[2] == q[2];
      }
    }
  }

  lemma ShiftPrefix<T>(s: seq<T>, c: seq<T>)
    requires |s| >= 8
    ensures s[..|s| - 4] + c == s[..4] + (s[4..][..|s| - 8] + c)
  {
    assert s[..|s| - 4] == s[..4] + s[4..][..|s| - 8];
  }

  lemma ClearUnusedBitsOfLonger(s: seq<Byte>)
    requires |s| % 4 == 0 && |s| > 4
    ensures ClearUnusedBits(s) == s[..4] + ClearUnusedBits(s[4..])
  {
    var t, q := s[4..], s[|s| - 4..];
    assert t[|t| - 4..] == q;
    ShiftPrefix(s, ClearFinal(q));
  }

  /** The decoder never looks at the unused bits. */
  lemma DecodeFinalOfClearFinal(q: seq<Byte>)
    requires |q| == 4
    ensures DecodeFinal(ClearFinal(q)) == DecodeFinal(q)
  {
    var r := ClearFinal(q);
    if q[2] == Pad && q[3] == Pad && IsAlphabet(q[1]) {
      assert !AllAlphabet(q) && !AllAlphabet(r) by { assert !IsAlphabet(q[3]) && !IsAlphabet(r[3]); }
      assert !AllAlphabet(q[..3]) && !AllAlphabet(r[..3]) by { assert !IsAlphabet(q[..3][2]) && !IsAlphabet(r[..3][2]); }
      assert AllAlphabet(q[..2]) <==> AllAlphabet(r[..2]) by { assert q[..2][0] == r[..2][0]; }
    } else if q[3] == Pad && IsAlphabet(q[2]) {
      assert !AllAlphabet(q) && !AllAlphabet(r) by { assert !IsAlphabet(q[3]) && !IsAlphabet(r[3]); }
      assert q[..2] == r[..2];
      assert AllAlphabet(q[..3]) <==> AllAlphabet(r[..3]) by {
        assert q[..3][0] == r[..3][0] && q[..3][1] == r[..3][1];
      }
    }
  }

  lemma {:induction false} DecodeQuantaOfClear(s: seq<Byte>)
    requires |s| % 4 == 0
    ensures DecodeQuanta(ClearUnusedBits(s)) == DecodeQuanta(s)
    decreases |s|
  {
    if |s| == 4 {
      assert s[..0] + ClearFinal(s[0..]) == ClearFinal(s);
      DecodeFinalOfClearFinal(s);
    } else if |s| > 4 {
      var r := ClearUnusedBits(s);
      ClearUnusedBitsOfLonger(s);
      assert r[..4] == s[..4];
      assert r[4..] == ClearUnusedBits(s[4..]);
      DecodeQuantaOfClear(s[4..]);
    }
  }

  /** Decoding is blind to the unused bits: `s` and `s` with them cleared decode alike. */
  lemma DecodeOfClearUnusedBits(s: seq<Byte>)
    ensures Decode(ClearUnusedBits(s)) == Decode(s)
  {
    if |s| % 4 == 0 {
      DecodeQuantaOfClear(s);
    }
  }

  /** The bit arithmetic of regrouping four sextets as three octets and back. */
  lemma RegroupSextets(c0: int, c1: int, c2: int, c3: int)
    requires 0 <= c0 < 64 && 0 <= c1 < 64 && 0 <= c2 < 64 && 0 <= c3 < 64
    ensures var x, y, z := c0 * 4 + c1 / 16, (c1 % 16) * 16 + c2 / 4, (c2 % 4) * 64 + c3;
      x / 4 == c0 && (x % 4) * 16 + y / 16 == c1 && (y % 16) * 4 + z / 64 == c2 && z % 64 == c3
  {
    var x, y, z := c0 * 4 + c1 / 16, (c1 % 16) * 16 + c2 / 4, (c2 % 4) * 64 + c3;
    assert x / 4 == c0 && x % 4 == c1 / 16;
    assert y / 16 == c1 % 16 && y % 16 == c2 / 4;
    assert z / 64 == c2 % 4 && z % 64 == c3;
  }

  /** Encoding the three octets that four sextets carry gives back the four sextets' characters. */
  lemma EncodeGroupOfSextets(c0: int, c1: int, c2: int, c3: int)
    requires 0 <= c0 < 64 && 0 <= c1 < 64 && 0 <= c2 < 64 && 0 <= c3 < 64
    ensures EncodeGroup(c0 * 4 + c1 / 16, (c1 % 16) * 16 + c2 / 4, (c2 % 4) * 64 + c3) ==
      [SextetChar(c0), SextetChar(c1), SextetChar(c2), SextetChar(c3)]
  {
    RegroupSextets(c0, c1, c2, c3);
  }

  lemma EncodeGroupOfDecodeGroup(q: seq<Byte>)
    requires |q| == 4 && AllAlphabet(q)
    ensures var g := DecodeGroup(q); EncodeGroup(g[0], g[1], g[2]) == q
  {
    var c0, c1, c2, c3 := SextetValue(q[0]), SextetValue(q[1]), SextetValue(q[2]), SextetValue(q[3]);
    var g := DecodeGroup(q);
    assert g == [c0 * 4 + c1 / 16, (c1 % 16) * 16 + c2 / 4, (c2 % 4) * 64 + c3];
    EncodeGroupOfSextets(c0, c1, c2, c3);
    SextetCharOfValue(q[0]);
    SextetCharOfValue(q[1]);
    SextetCharOfValue(q[2]);
    SextetCharOfValue(q[3]);
    assert q == [q[0], q[1], q[2], q[3]];
  }

  lemma EncodeOfDecodeFinalTwo(q: seq<Byte>, b: seq<Byte>)
    requires |q| == 4 && AllAlphabet(q[..3]) && q[3] == Pad && DecodeFinal(q) == Some(b)
    ensures Encode(b) == ClearFinal(q)
  {
    assert !AllAlphabet(q) by { assert !IsAlphabet(q[3]); }
    assert IsAlphabet(q[..3][0]) && IsAlphabet(q[..3][1]) && IsAlphabet(q[..3][2]);
    var c0, c1, c2 := SextetValue(q[0]), SextetValue(q[1]), SextetValue(q[2]);
    var x, y := c0 * 4 + c1 / 16, (c1 % 16) * 16 + c2 / 4;
    assert b == [x, y];
    assert x / 4 == c0 && x % 4 == c1 / 16;
    assert y / 16 == c1 % 16 && (y % 16) * 4 == c2 / 4 * 4;
    assert (x % 4) * 16 + y / 16 == c1;
    SextetCharOfValue(q[0]);
    SextetCharOfValue(q[1]);
  }

  lemma EncodeOfDecodeFinalOne(q: seq<Byte>, b: seq<Byte>)
    requires |q| == 4 && AllAlphabet(q[..2]) && q[2] == Pad && q[3] == Pad && DecodeFinal(q) == Some(b)
    ensures Encode(b) == ClearFinal(q)
  {
    assert !AllAlphabet(q) by { assert !IsAlphabet(q[3]); }
    assert !AllAlphabet(q[..3]) by { assert !IsAlphabet(q[..3][2]); }
    assert IsAlphabet(q[..2][0]) && IsAlphabet(q[..2][1]);
    var c0, c1 := SextetValue(q[0]), SextetValue(q[1]);
    var x := c0 * 4 + c1 / 16;
    assert b == [x];
    assert x / 4 == c0 && (x % 4) * 16 == c1 / 16 * 16;
    SextetCharOfValue(q[0]);
  }

  /** Every accepted last quantum is the encoding of what it decodes to, once its unused bits are cleared. */
  lemma EncodeOfDecodeFinal(q: seq<Byte>, b: seq<Byte>)
    requires |q| == 4 && DecodeFinal(q) == Some(b)
    ensures Encode(b) == ClearFinal(q)
  {
    if AllAlphabet(q) {
      assert q[3] != Pad by { assert IsAlphabet(q[3]); }
      EncodeGroupOfDecodeGroup(q);
      EncodeOfThree(b);
    } else if AllAlphabet(q[..3]) && q[3] == Pad {
      EncodeOfDecodeFinalTwo(q, b);
    } else {
      EncodeOfDecodeFinalOne(q, b);
    }
  }

  lemma EncodeOfGroupThen(q: seq<Byte>, rest: seq<Byte>)
    requires |q| == 4 && AllAlphabet(q) && |rest| >= 1
    ensures Encode(DecodeGroup(q) + rest) == q + Encode(rest)
  {
    var g := DecodeGroup(q);
    var b := g + rest;
    assert b[..3] == g && b[3..] == rest;
    EncodeGroupOfDecodeGroup(q);
    assert Encode(b) == EncodeGroup(b[0], b[1], b[2]) + Encode(b[3..]);
  }

  lemma {:induction false} EncodeOfDecodeQuanta(s: seq<Byte>, b: seq<Byte>)
    requires |s| % 4 == 0 && DecodeQuanta(s) == Some(b)
    ensures Encode(b) == ClearUnusedBits(s)
    decreases |s|
  {
    if |s| == 4 {
      assert s[..0] + ClearFinal(s[0..]) == ClearFinal(s);
      EncodeOfDecodeFinal(s, b);
    } else if |s| > 4 {
      var rest := DecodeQuanta(s[4..]).value;
      assert b == DecodeGroup(s[..4]) + rest;
      EncodeOfDecodeQuanta(s[4..], rest);
      EncodeOfGroupThen(s[..4], rest);
      ClearUnusedBitsOfLonger(s);
    }
  }

  /**
    The decoder accepts exactly the encodings, up to the unused bits:
    `s` decodes to `b` if and only if `s` with its unused bits cleared is the
    encoding of `b`.
   */
  lemma DecodeIsInverse(s: seq<Byte>, b: seq<Byte>)
    ensures Decode(s) == Some(b) <==> Encode(b) == ClearUnusedBits(s)
  {
    if Decode(s) == Some(b) {
      EncodeOfDecodeQuanta(s, b);
    }
    if Encode(b) == ClearUnusedBits(s) {
      DecodeEncode(b);
      DecodeOfClearUnusedBits(s);
    }
  }

  /** On canonical input the decoder is the exact inverse of the encoder. */
  lemma DecodeOfCanonical(s: seq<Byte>, b: seq<Byte>)
    requires Canonical(s)
    ensures Decode(s) == Some(b) <==> Encode(b) == s
  {
    DecodeIsInverse(s, b);
    ClearUnusedBitsCanonical(s);
  }
}
