/** UTF-8 as defined in section 4 of RFC 3629: the byte sequences that Rust accepts as a
    `String`. A byte string is well-formed exactly when Decode returns Some. */
module Utf8 {
  import opened Bytes
  import opened Outcomes

  predicate IsTail(b: u8) { 0x80 <= b <= 0xBF }

  /** The byte after a three-byte lead: the narrowed ranges after E0 and ED keep out
      overlong forms and the UTF-16 surrogates. */
  predicate SecondOfThree(b0: u8, b1: u8)
  {
    if b0 == 0xE0 then 0xA0 <= b1 <= 0xBF
    else if b0 == 0xED then 0x80 <= b1 <= 0x9F
    else IsTail(b1)
  }

  /** The byte after a four-byte lead: the narrowed ranges after F0 and F4 keep out
      overlong forms and code points above U+10FFFF. */
  predicate SecondOfFour(b0: u8, b1: u8)
  {
    if b0 == 0xF0 then 0x90 <= b1 <= 0xBF
    else if b0 == 0xF4 then 0x80 <= b1 <= 0x8F
    else IsTail(b1)
  }

  /** The scalar value of a two-byte form. */
  function Scalar2(b0: u8, b1: u8): (x: int)
    requires 0xC2 <= b0 <= 0xDF && IsTail(b1)
    ensures 0x80 <= x < 0x800
  {
    (b0 - 0xC0) * 64 + (b1 - 0x80)
  }

  /** The scalar value of a three-byte form; never a UTF-16 surrogate. */
  function Scalar3(b0: u8, b1: u8, b2: u8): (x: int)
    requires 0xE0 <= b0 <= 0xEF && SecondOfThree(b0, b1) && IsTail(b2)
    ensures 0x800 <= x < 0x10000 && (x < 0xD800 || 0xE000 <= x)
  {
    (b0 - 0xE0) * 4096 + (b1 - 0x80) * 64 + (b2 - 0x80)
  }

  /** The scalar value of a four-byte form; never above U+10FFFF. */
  function Scalar4(b0: u8, b1: u8, b2: u8, b3: u8): (x: int)
    requires 0xF0 <= b0 <= 0xF4 && SecondOfFour(b0, b1) && IsTail(b2) && IsTail(b3)
    ensures 0x10000 <= x < 0x110000
  {
    (b0 - 0xF0) * 262144 + (b1 - 0x80) * 4096 + (b2 - 0x80) * 64 + (b3 - 0x80)
  }

  /** The scalar value encoded at the front of bs, with the number of bytes it takes,
      or None when the front of bs matches no row of the RFC 3629 grammar. */
  function DecodeScalar(bs: seq<u8>): (r: Option<(char, nat)>)
    requires |bs| > 0
    ensures r.Some? ==> 1 <= r.value.1 <= |bs| && r.value.1 <= 4
  {
    var b0 := bs[0];
    if b0 <= 0x7F then Some((b0 as char, 1))
    else if 0xC2 <= b0 <= 0xDF then
      if |bs| >= 2 && IsTail(bs[1])
      then Some((Scalar2(b0, bs[1]) as char, 2))
      else None
    else if 0xE0 <= b0 <= 0xEF then
      if |bs| >= 3 && SecondOfThree(b0, bs[1]) && IsTail(bs[2])
      then Some((Scalar3(b0, bs[1], bs[2]) as char, 3))
      else None
    else if 0xF0 <= b0 <= 0xF4 then
      if |bs| >= 4 && SecondOfFour(b0, bs[1]) && IsTail(bs[2]) && IsTail(bs[3])
      then Some((Scalar4(b0, bs[1], bs[2], bs[3]) as char, 4))
      else None
    else None
  }

  /** The text a byte string spells, or None when it is not well-formed UTF-8. */
  function Decode(bs: seq<u8>): (r: Option<string>)
    ensures r.Some? ==> |r.value| <= |bs| <= 4 * |r.value|
    decreases |bs|
  {
    if bs == [] then Some([])
    else match DecodeScalar(bs)
      case None => None
      case Some((c, n)) =>
        match Decode(bs[n..])
        case None => None
        case Some(s) => Some([c] + s)
  }

  function Encode2(x: int): seq<u8>
    requires 0x80 <= x < 0x800
  {
    [0xC0 + x / 64, 0x80 + x % 64]
  }

  function Encode3(x: int): seq<u8>
    requires 0x800 <= x < 0x10000
  {
    [0xE0 + x / 64 / 64, 0x80 + (x / 64) % 64, 0x80 + x % 64]
  }

  function Encode4(x: int): seq<u8>
    requires 0x10000 <= x < 0x110000
  {
    [0xF0 + x / 64 / 64 / 64, 0x80 + (x / 64 / 64) % 64, 0x80 + (x / 64) % 64, 0x80 + x % 64]
  }

  /** The shortest UTF-8 encoding of one scalar value. */
  function EncodeChar(c: char): (bs: seq<u8>)
    ensures 1 <= |bs| <= 4
  {
    var x := c as int;
    if x < 0x80 then [x]
    else if x < 0x800 then Encode2(x)
    else if x < 0x10000 then Encode3(x)
    else Encode4(x)
  }

  /** The UTF-8 encoding of a text (Rust's `str::as_bytes`). */
  function Encode(s: string): (bs: seq<u8>)
  {
    if s == [] then [] else EncodeChar(s[0]) + Encode(s[1..])
  }

  /** Six bits below a number: division and remainder by 64 take them apart again. */
  lemma DivMod64(q: int, r: int)
    requires 0 <= q && 0 <= r < 64
    ensures (q * 64 + r) / 64 == q && (q * 64 + r) % 64 == r
  {
  }

  lemma Scalar2OfEncode2(x: int)
    requires 0x80 <= x < 0x800
    ensures var e := Encode2(x); 0xC2 <= e[0] <= 0xDF && IsTail(e[1]) && Scalar2(e[0], e[1]) == x
  {
    assert x == (x / 64) * 64 + x % 64;
  }

  lemma Scalar3OfEncode3(x: int)
    requires 0x800 <= x < 0x10000 && (x < 0xD800 || 0xE000 <= x)
    ensures var e := Encode3(x);
      0xE0 <= e[0] <= 0xEF && SecondOfThree(e[0], e[1]) && IsTail(e[2]) && Scalar3(e[0], e[1], e[2]) == x
  {
    var q := x / 64;
    var q2 := q / 64;
    assert x == q * 64 + x % 64;
    assert q == q2 * 64 + q % 64;
  }

  lemma Scalar4OfEncode4(x: int)
    requires 0x10000 <= x < 0x110000
    ensures var e := Encode4(x);
      && 0xF0 <= e[0] <= 0xF4 && SecondOfFour(e[0], e[1]) && IsTail(e[2]) && IsTail(e[3])
      && Scalar4(e[0], e[1], e[2], e[3]) == x
  {
    var q := x / 64;
    var q2 := q / 64;
    var q3 := q2 / 64;
    assert x == q * 64 + x % 64;
    assert q == q2 * 64 + q % 64;
    assert q2 == q3 * 64 + q2 % 64;
  }

  lemma Encode2OfScalar2(b0: u8, b1: u8)
    requires 0xC2 <= b0 <= 0xDF && IsTail(b1)
    ensures Encode2(Scalar2(b0, b1)) == [b0, b1]
  {
    DivMod64(b0 - 0xC0, b1 - 0x80);
  }

  lemma Encode3OfScalar3(b0: u8, b1: u8, b2: u8)
    requires 0xE0 <= b0 <= 0xEF && SecondOfThree(b0, b1) && IsTail(b2)
    ensures Encode3(Scalar3(b0, b1, b2)) == [b0, b1, b2]
  {
    var a, b, c := b0 - 0xE0, b1 - 0x80, b2 - 0x80;
    assert Scalar3(b0, b1, b2) == (a * 64 + b) * 64 + c;
    DivMod64(a * 64 + b, c);
    DivMod64(a, b);
  }

  lemma Encode4OfScalar4(b0: u8, b1: u8, b2: u8, b3: u8)
    requires 0xF0 <= b0 <= 0xF4 && SecondOfFour(b0, b1) && IsTail(b2) && IsTail(b3)
    ensures Encode4(Scalar4(b0, b1, b2, b3)) == [b0, b1, b2, b3]
  {
    var a, b, c, d := b0 - 0xF0, b1 - 0x80, b2 - 0x80, b3 - 0x80;
    assert Scalar4(b0, b1, b2, b3) == ((a * 64 + b) * 64 + c) * 64 + d;
    DivMod64((a * 64 + b) * 64 + c, d);
    DivMod64(a * 64 + b, c);
    DivMod64(a, b);
  }

  lemma DecodeScalarOfEncodeChar(c: char, rest: seq<u8>)
    ensures DecodeScalar(EncodeChar(c) + rest) == Some((c, |EncodeChar(c)|))
  {
    var x := c as int;
    var e := EncodeChar(c);
    var bs := e + rest;
    if x < 0x80 {
    } else if x < 0x800 {
      Scalar2OfEncode2(x);
      assert bs[0] == e[0] && bs[1] == e[1];
    } else if x < 0x10000 {
      Scalar3OfEncode3(x);
      assert bs[0] == e[0] && bs[1] == e[1] && bs[2] == e[2];
    } else {
      Scalar4OfEncode4(x);
      assert bs[0] == e[0] && bs[1] == e[1] && bs[2] == e[2] && bs[3] == e[3];
    }
  }

  lemma EncodeCharOfDecodeScalar(bs: seq<u8>)
    requires |bs| > 0 && DecodeScalar(bs).Some?
    ensures EncodeChar(DecodeScalar(bs).value.0) == bs[..DecodeScalar(bs).value.1]
  {
    var n := DecodeScalar(bs).value.1;
    if n == 2 {
      Encode2OfScalar2(bs[0], bs[1]);
      assert bs[..2] == [bs[0], bs[1]];
    } else if n == 3 {
      Encode3OfScalar3(bs[0], bs[1], bs[2]);
      assert bs[..3] == [bs[0], bs[1], bs[2]];
    } else if n == 4 {
      Encode4OfScalar4(bs[0], bs[1], bs[2], bs[3]);
      assert bs[..4] == [bs[0], bs[1], bs[2], bs[3]];
    } else {
      assert bs[..1] == [bs[0]];
    }
  }

  /** Decoding an encoded text gives the text back. */
  lemma {:induction false} DecodeOfEncode(s: string)
    ensures Decode(Encode(s)) == Some(s)
  {
    if s != [] {
      var e := EncodeChar(s[0]);
      DecodeScalarOfEncodeChar(s[0], Encode(s[1..]));
      assert Encode(s) == e + Encode(s[1..]);
      assert Encode(s)[|e|..] == Encode(s[1..]);
      DecodeOfEncode(s[1..]);
      assert [s[0]] + s[1..] == s;
    }
  }

  lemma EncodeCons(c: char, t: string)
    ensures Encode([c] + t) == EncodeChar(c) + Encode(t)
  {
    assert ([c] + t)[1..] == t;
  }

  /** A well-formed nonempty byte string is one scalar's encoding followed by a
      well-formed rest. */
  lemma DecodeCons(bs: seq<u8>)
    requires bs != [] && Decode(bs).Some?
    ensures DecodeScalar(bs).Some?
    ensures var n := DecodeScalar(bs).value.1;
      && Decode(bs[n..]).Some?
      && Decode(bs).value == [DecodeScalar(bs).value.0] + Decode(bs[n..]).value
      && EncodeChar(DecodeScalar(bs).value.0) == bs[..n]
  {
    EncodeCharOfDecodeScalar(bs);
  }

  /** A sequence cut in two and put back together is the sequence. */
  lemma SplitJoin(bs: seq<u8>, n: nat)
    requires n <= |bs|
    ensures bs[..n] + bs[n..] == bs
  {
  }

  /** A well-formed byte string is the encoding of the text it decodes to: decoding
      loses nothing, so the choice to fail on ill-formed bytes is the only lossy case. */
  lemma {:induction false} EncodeOfDecode(bs: seq<u8>)
    requires Decode(bs).Some?
    ensures Encode(Decode(bs).value) == bs
    decreases |bs|
  {
    if bs != [] {
      DecodeCons(bs);
      var (c, n) := DecodeScalar(bs).value;
      var t := Decode(bs[n..]).value;
      EncodeOfDecode(bs[n..]);
      EncodeCons(c, t);
      calc {
        Encode(Decode(bs).value);
        Encode([c] + t);
        EncodeChar(c) + Encode(t);
        bs[..n] + bs[n..];
        { SplitJoin(bs, n); }
        bs;
      }
    }
  }
}
