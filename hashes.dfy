/** Hashed names and the five dictionaries that give them a text (src/hashes.rs).
    `BinFNV` (a 32-bit FNV-1a hash) and `BinXXH` (a 64-bit xxHash of a path) share one
    shape and one set of operations, written once over the kind of hash as the Rust
    code writes them once over the `BinHashed` trait. */
module Hashes {
  import opened Bytes
  import opened Outcomes
  import Utf8

  datatype HashKind = Fnv | Xxh

  /** The number of values a hash of the kind can take (`u32` or `u64`). */
  function Limit(kind: HashKind): nat
  {
    match kind
    case Fnv => 0x1_0000_0000
    case Xxh => 0x1_0000_0000_0000_0000
  }

  /** The number of hexadecimal digits a hash of the kind is displayed with. */
  function HexWidth(kind: HashKind): nat
  {
    match kind
    case Fnv => 8
    case Xxh => 16
  }

  function Pow16(n: nat): (r: nat)
    ensures r >= 1
  {
    if n == 0 then 1 else 16 * Pow16(n - 1)
  }

  lemma LimitIsPow16(kind: HashKind)
    ensures Limit(kind) == Pow16(HexWidth(kind))
  {
    assert Pow16(4) == 0x1_0000;
    assert Pow16(8) == 0x1_0000 * Pow16(4);
    assert Pow16(16) == 0x1_0000 * 0x1_0000 * Pow16(8);
  }

  /** A hash together with the text it was recovered from; the text is empty when the
      hash is not in any dictionary. */
  datatype HashedName = HashedName(kind: HashKind, hash: nat, unhashed: string)

  type BinFNV = n: HashedName | n.kind == Fnv && n.hash < 0x1_0000_0000
    witness HashedName(Fnv, 0, [])

  type BinXXH = n: HashedName | n.kind == Xxh && n.hash < 0x1_0000_0000_0000_0000
    witness HashedName(Xxh, 0, [])

  /** `from_hash`: a name with no text. */
  function FromHash(kind: HashKind, hash: nat): (n: HashedName)
    requires hash < Limit(kind)
    ensures n.kind == kind && n.hash == hash && n.unhashed == []
  {
    HashedName(kind, hash, [])
  }

  /** `from_hash_string`: a name with a text. */
  function FromHashString(kind: HashKind, hash: nat, s: string): (n: HashedName)
    requires hash < Limit(kind)
    ensures n.kind == kind && n.hash == hash && n.unhashed == s
  {
    HashedName(kind, hash, s)
  }

  /** `get_hash`: the number the name was built from, which `from_hash` turns back into
      the same name without its text. */
  function GetHash(n: HashedName): (h: nat)
    ensures n.hash < Limit(n.kind) ==> h < Limit(n.kind) && FromHash(n.kind, h) == n.(unhashed := [])
  {
    n.hash
  }

  // ---------------------------------------------------------------------------------
  // Equality, ordering and hashing: all three look at the numeric hash only.

  datatype Ordering = Less | Equal | Greater
  {
    function Reverse(): Ordering
    {
      match this
      case Less => Greater
      case Equal => Equal
      case Greater => Less
    }
  }

  /** `PartialEq::eq`: two names of one kind are equal exactly when they agree once their
      texts are dropped, and equal names are fed alike to a hasher. */
  predicate Eq(a: HashedName, b: HashedName): (r: bool)
    ensures a.kind == b.kind ==> (r <==> a.(unhashed := []) == b.(unhashed := []))
    ensures r ==> HashInput(a) == HashInput(b)
  {
    GetHash(a) == GetHash(b)
  }

  /** `Ord::cmp` */
  function Cmp(a: HashedName, b: HashedName): (o: Ordering)
    ensures o == Less <==> a.hash < b.hash
    ensures o == Equal <==> Eq(a, b)
    ensures o == Greater <==> a.hash > b.hash
  {
    if a.hash < b.hash then Less else if a.hash == b.hash then Equal else Greater
  }

  /** `Hash::hash`: the only thing fed to the hasher; the text is not part of it. */
  function HashInput(a: HashedName): (h: nat)
    ensures forall s :: GetHash(a.(unhashed := s)) == h
  {
    GetHash(a)
  }

  /** Two names that differ only in their labels are equal, compare Equal and hash alike;
      names with the same text but different hashes are not equal. */
  lemma LabelIgnored(a: HashedName, s: string, t: string)
    ensures var x, y := a.(unhashed := s), a.(unhashed := t);
      Eq(x, y) && Cmp(x, y) == Equal && HashInput(x) == HashInput(y)
    ensures forall h :: h != a.hash ==> !Eq(a, a.(hash := h))
  {
  }

  /** Cmp is a total order consistent with Eq. */
  lemma CmpIsTotalOrder(a: HashedName, b: HashedName, c: HashedName)
    ensures Cmp(b, a) == Cmp(a, b).Reverse()
    ensures Cmp(a, b) == Less && Cmp(b, c) == Less ==> Cmp(a, c) == Less
    ensures Eq(a, b) ==> Cmp(a, c) == Cmp(b, c)
  {
  }

  // ---------------------------------------------------------------------------------
  // Display: the text in quotes, or the hash as fixed-width upper-case hex.

  /** The characters `{:X}` writes: 0-9 and A-F. */
  predicate IsUpperHexDigit(c: char)
  {
    '0' <= c <= '9' || 'A' <= c <= 'F'
  }

  /** The upper-case digit for d < 16. */
  function HexChar(d: nat): (c: char)
    requires d < 16
    ensures IsUpperHexDigit(c)
  {
    if d < 10 then ('0' as int + d) as char else ('A' as int + d - 10) as char
  }

  predicate IsHexDigit(c: char)
  {
    '0' <= c <= '9' || 'a' <= c <= 'f' || 'A' <= c <= 'F'
  }

  function DigitValue(c: char): (d: nat)
    requires IsHexDigit(c)
    ensures d < 16
  {
    if '0' <= c <= '9' then c as int - '0' as int
    else if 'a' <= c <= 'f' then c as int - 'a' as int + 10
    else c as int - 'A' as int + 10
  }

  /** v as exactly w upper-case hexadecimal digits, most significant first, padded with
      zeros (`{:0wX}` for a value that fits in w digits). */
  function HexDigits(v: nat, w: nat): (s: string)
    requires v < Pow16(w)
    ensures |s| == w
    ensures forall i | 0 <= i < w :: IsUpperHexDigit(s[i])
  {
    if w == 0 then [] else HexDigits(v / 16, w - 1) + [HexChar(v % 16)]
  }

  /** The value of a string of hexadecimal digits (either case). */
  function HexValue(s: string): nat
    requires forall i | 0 <= i < |s| :: IsHexDigit(s[i])
  {
    if s == [] then 0 else HexValue(s[..|s| - 1]) * 16 + DigitValue(s[|s| - 1])
  }

  /** Reading the digits back gives the value: HexDigits loses nothing. */
  lemma {:induction false} HexValueOfHexDigits(v: nat, w: nat)
    requires v < Pow16(w)
    ensures forall i | 0 <= i < w :: IsHexDigit(HexDigits(v, w)[i])
    ensures HexValue(HexDigits(v, w)) == v
  {
    if w > 0 {
      HexValueOfHexDigits(v / 16, w - 1);
      var s := HexDigits(v, w);
      assert s[..w - 1] == HexDigits(v / 16, w - 1);
      assert DigitValue(HexChar(v % 16)) == v % 16;
    }
  }

  /** Rust's `{:?}` rendering of a text. Escaping of quotes, backslashes and control
      characters is not modelled: the text is put between double quotes as it is. */
  function Quoted(s: string): string
  {
    ['"'] + s + ['"']
  }

  /** A hash of the kind as its fixed number of hex digits. */
  function HashHex(kind: HashKind, hash: nat): (s: string)
    requires hash < Limit(kind)
  {
    LimitIsPow16(kind);
    HexDigits(hash, HexWidth(kind))
  }

  /** `format_to`, used by both `Display` and `Debug`. */
  function FormatTo(n: HashedName): (s: string)
    requires n.hash < Limit(n.kind)
    ensures |n.unhashed| == 0 ==> |s| == 2 + HexWidth(n.kind) && s[..2] == "0x"
    ensures |n.unhashed| != 0 ==> |s| == |n.unhashed| + 2 && s[1..|s| - 1] == n.unhashed
  {
    if |n.unhashed| != 0 then Quoted(n.unhashed) else "0x" + HashHex(n.kind, n.hash)
  }

  /** An unlabelled name displays as "0x" and exactly 8 (FNV) or 16 (XXH) upper-case hex
      digits that spell its hash; a labelled one displays as its quoted text. */
  lemma FormatToShape(n: HashedName)
    requires n.hash < Limit(n.kind)
    ensures var s := FormatTo(n);
      if n.unhashed == [] then
        && |s| == 2 + HexWidth(n.kind) && s[..2] == "0x"
        && (forall i | 2 <= i < |s| :: IsUpperHexDigit(s[i]) && IsHexDigit(s[i]))
        && HexValue(s[2..]) == n.hash
      else s == Quoted(n.unhashed)
  {
    if n.unhashed == [] {
      LimitIsPow16(n.kind);
      var d := HexDigits(n.hash, HexWidth(n.kind));
      HexValueOfHexDigits(n.hash, HexWidth(n.kind));
      assert FormatTo(n)[2..] == d;
    }
  }

  // ---------------------------------------------------------------------------------
  // FNV-1a over the ASCII-lower-cased text (`BinFNV::from_string`).

  const FnvOffset: u32 := 0x811c9dc5
  const FnvPrime: u32 := 0x01000193

  /** 32-bit FNV-1a: start from the offset basis, then for each byte xor it in and multiply
      by the prime modulo 2^32. */
  function Fnv1a(bs: seq<u8>): u32
  {
    if bs == [] then FnvOffset else FnvStep(Fnv1a(bs[..|bs| - 1]), bs[|bs| - 1])
  }

  /** `^` on the low n bits of two numbers, one bit at a time. */
  function XorBits(x: nat, y: nat, n: nat): (r: nat)
    ensures r < Pow2(n)
  {
    if n == 0 then 0 else (x + y) % 2 + 2 * XorBits(x / 2, y / 2, n - 1)
  }

  function Pow2(n: nat): (r: nat)
    ensures r >= 1
  {
    if n == 0 then 1 else 2 * Pow2(n - 1)
  }

  /** The width of a byte, in bits. */
  const ByteBits: nat := 8

  /** `^` on two bytes. */
  function XorByte(x: u8, y: u8): u8
  {
    assert Pow2(ByteBits) == 256;
    XorBits(x, y, ByteBits)
  }

  lemma MulAtLeast(d: int, k: int)
    requires d > 0 && k >= 1
    ensures d * k >= d
  {
    assert d * k == d * (k - 1) + d;
  }

  /** Quotient and remainder are the only ones: x == d * q + r with 0 <= r < d fixes both. */
  lemma DivModUnique(x: int, d: int, q: int, r: int)
    requires d > 0 && 0 <= r < d && x == d * q + r
    ensures x / d == q && x % d == r
  {
    var k := x / d - q;
    assert d * k == r - x % d;
    if k >= 1 { MulAtLeast(d, k); }
    else if k <= -1 { MulAtLeast(d, -k); }
  }

  /** The low n bits of x are its lowest bit and then the low n - 1 bits of x / 2. */
  lemma LowBits(x: nat, n: nat)
    requires n > 0
    ensures x % Pow2(n) == x % 2 + 2 * (x / 2 % Pow2(n - 1))
  {
    var m := Pow2(n - 1);
    var q, r := x / 2 / m, x / 2 % m;
    assert x / 2 == m * q + r;
    assert x == (2 * m) * q + (2 * r + x % 2);
    DivModUnique(x, 2 * m, q, 2 * r + x % 2);
  }

  lemma XorBitsStep(x: nat, y: nat, n: nat)
    requires n > 0
    ensures XorBits(x, y, n) == (x + y) % 2 + 2 * XorBits(x / 2, y / 2, n - 1)
  {
  }

  /** Xor with zero keeps the low n bits. */
  lemma {:induction false} XorBitsZero(x: nat, n: nat)
    ensures XorBits(x, 0, n) == x % Pow2(n)
  {
    if n > 0 {
      XorBitsZero(x / 2, n - 1);
      LowBits(x, n);
    }
  }

  /** Xor is symmetric. */
  lemma {:induction false} XorBitsSymmetric(x: nat, y: nat, n: nat)
    ensures XorBits(x, y, n) == XorBits(y, x, n)
  {
    if n > 0 {
      XorBitsSymmetric(x / 2, y / 2, n - 1);
    }
  }

  /** Xoring the same number in twice gives back the low n bits. */
  lemma {:induction false} XorBitsCancel(x: nat, y: nat, n: nat)
    ensures XorBits(XorBits(x, y, n), y, n) == x % Pow2(n)
  {
    if n > 0 {
      var r := XorBits(x, y, n);
      XorBitsStep(x, y, n);
      HalfAndParity(r, (x + y) % 2, XorBits(x / 2, y / 2, n - 1));
      CancelParity(x, y, r);
      XorBitsCancel(x / 2, y / 2, n - 1);
      XorBitsStep(r, y, n);
      LowBits(x, n);
    }
  }

  lemma HalfAndParity(r: int, b: int, s: int)
    requires 0 <= b < 2 && r == b + 2 * s
    ensures r % 2 == b && r / 2 == s
  {
  }

  lemma CancelParity(x: int, y: int, r: int)
    requires r % 2 == (x + y) % 2
    ensures (r + y) % 2 == x % 2
  {
  }

  /** `^` on bytes: the order of the operands does not matter. */
  lemma XorByteSymmetric(x: u8, y: u8)
    ensures XorByte(x, y) == XorByte(y, x)
  {
    XorBitsSymmetric(x, y, ByteBits);
  }

  /** `^` on bytes: xoring the same byte in twice gives the byte back. */
  lemma XorByteCancel(x: u8, y: u8)
    ensures XorByte(XorByte(x, y), y) == x
  {
    var n := ByteBits;
    assert Pow2(n) == 256;
    var z := XorBits(x, y, n);
    XorBitsCancel(x, y, n);
    DivModUnique(x, Pow2(n), 0, x);
    assert XorBits(z, y, n) == x;
  }

  /** `(hash ^ b as u32).wrapping_mul(prime)`: a byte xored into a u32 changes only its low
      byte; `wrapping_mul` keeps the product modulo 2^32. */
  function FnvStep(hash: u32, b: u8): u32
  {
    ((hash - hash % 256 + XorByte(hash % 256, b)) * FnvPrime) % 0x1_0000_0000
  }

  /** One more byte is one more step. */
  lemma FnvSnoc(bs: seq<u8>, b: u8)
    ensures Fnv1a(bs + [b]) == FnvStep(Fnv1a(bs), b)
  {
    assert (bs + [b])[..|bs|] == bs;
  }

  /** `to_ascii_lowercase` on one character: only 'A'..'Z' change. */
  function AsciiLower(c: char): char
  {
    if 'A' <= c <= 'Z' then (c as int + 32) as char else c
  }

  function AsciiLowercase(s: string): (t: string)
    ensures |t| == |s| && forall i | 0 <= i < |s| :: t[i] == AsciiLower(s[i])
  {
    seq(|s|, i requires 0 <= i < |s| => AsciiLower(s[i]))
  }

  /** The bytes `from_string` hashes: the UTF-8 of the lower-cased text. */
  function LowerBytes(s: string): seq<u8>
  {
    Utf8.Encode(AsciiLowercase(s))
  }

  /** The hash `from_string` gives a text: FNV-1a of the UTF-8 bytes of its lower-cased form. */
  function StringHash(s: string): nat
  {
    Fnv1a(LowerBytes(s))
  }

  method FromString(s: string) returns (n: BinFNV)
    ensures n.hash == StringHash(s) && n.unhashed == []
  {
    var bytes := LowerBytes(s);
    var hash := FnvOffset;
    for i := 0 to |bytes|
      invariant hash == Fnv1a(bytes[..i])
    {
      FnvSnoc(bytes[..i], bytes[i]);
      assert bytes[..i + 1] == bytes[..i] + [bytes[i]];
      hash := FnvStep(hash, bytes[i]);
    }
    assert bytes[..|bytes|] == bytes;
    n := HashedName(Fnv, hash, []);
  }

  /** Texts that agree up to ASCII case hash alike. */
  lemma StringHashIgnoresAsciiCase(s: string, t: string)
    requires |s| == |t| && forall i | 0 <= i < |s| :: AsciiLower(s[i]) == AsciiLower(t[i])
    ensures StringHash(s) == StringHash(t)
  {
    assert AsciiLowercase(s) == AsciiLowercase(t);
  }

  /** Published FNV-1a test values: the empty text hashes to the offset basis, and "a" and
      "A" both hash to 0xE40C292C. */
  lemma StringHashExamples()
    ensures StringHash("") == 0x811c9dc5
    ensures StringHash("a") == 0xe40c292c && StringHash("A") == 0xe40c292c
  {
    assert AsciiLowercase("") == "";
    assert AsciiLowercase("A") == "a" && AsciiLowercase("a") == "a";
    var e := Utf8.Encode("a");
    assert e == [0x61];
    assert e[..0] == [];
    assert Fnv1a(e) == FnvStep(FnvOffset, 0x61);
    assert XorByte(0xc5, 0x61) == 0xa4;
    assert FnvStep(FnvOffset, 0x61) == (0x811c9da4 * 0x01000193) % 0x1_0000_0000;
  }

  // ---------------------------------------------------------------------------------
  // Dictionaries.

  /** `BinHashList::get` on a given table: the hash with the table's text for it, or with
      no text when the table has none. */
  function Lookup(kind: HashKind, list: map<nat, string>, hash: nat): (n: HashedName)
    requires hash < Limit(kind)
    ensures n.kind == kind && n.hash == hash
    ensures hash in list ==> n.unhashed == list[hash]
    ensures hash !in list ==> n.unhashed == []
  {
    if hash in list then FromHashString(kind, hash, list[hash]) else FromHash(kind, hash)
  }

  /** What `from_str_radix` reads as digits: the text without one leading '+'. */
  function RadixDigits(s: string): (d: string)
    ensures |s| > 0 && s[0] == '+' ==> d == s[1..]
    ensures !(|s| > 0 && s[0] == '+') ==> d == s
  {
    if |s| > 0 && s[0] == '+' then s[1..] else s
  }

  /** `u32::from_str_radix(s, 16)` / `u64::from_str_radix(s, 16)`: an optional '+', then at
      least one hexadecimal digit of either case, and a value that fits the width. An empty
      digit string, a character that is not a hex digit, or an overflow gives None. */
  function FromStrRadix16(s: string, kind: HashKind): (r: Option<nat>)
    ensures var d := RadixDigits(s);
      r.Some? <==> (d != [] && (forall i | 0 <= i < |d| :: IsHexDigit(d[i])) && HexValue(d) < Limit(kind))
    ensures r.Some? ==> r.value == HexValue(RadixDigits(s)) && r.value < Limit(kind)
  {
    var digits := RadixDigits(s);
    if digits == [] || !(forall i | 0 <= i < |digits| :: IsHexDigit(digits[i])) then None
    else if HexValue(digits) < Limit(kind) then Some(HexValue(digits))
    else None
  }

  /** The index of the first space of a line that has one. */
  function FirstSpace(line: string): (i: nat)
    requires ' ' in line
    ensures i < |line| && line[i] == ' ' && ' ' !in line[..i]
  {
    if line[0] == ' ' then 0
    else
      assert ' ' in line[1..] by { var k :| 0 <= k < |line| && line[k] == ' '; assert line[1..][k - 1] == ' '; }
      var j := FirstSpace(line[1..]);
      assert line[..j + 1] == [line[0]] + line[1..][..j];
      j + 1
  }

  datatype LineError =
    | MissingSpace   // "Each line must contain a space"
    | BadHex         // "Failed to convert hex"

  /** One dictionary line, `<hex> <text>`: split at the first space, read the part before
      it as a hash of the kind, and keep the rest of the line as the text. */
  function ParseLine(kind: HashKind, line: string): (r: Result<(nat, string), LineError>)
    ensures r.Success? ==> r.value.0 < Limit(kind)
    ensures ' ' !in line <==> r == Failure(MissingSpace)
  {
    if ' ' !in line then Failure(MissingSpace)
    else
      var i := FirstSpace(line);
      match FromStrRadix16(line[..i], kind)
      case None => Failure(BadHex)
      case Some(h) => Success((h, line[i + 1..]))
  }

  /** A line that parses is split at its first space: the part before it reads as the
      hash, everything after it (further spaces included) is the text. */
  lemma ParseLineSplitsAtFirstSpace(kind: HashKind, line: string)
    requires ParseLine(kind, line).Success?
    ensures exists i | 0 <= i < |line| ::
      && line[i] == ' ' && ' ' !in line[..i]
      && FromStrRadix16(line[..i], kind) == Some(ParseLine(kind, line).value.0)
      && ParseLine(kind, line).value.1 == line[i + 1..]
  {
    var i := FirstSpace(line);
    assert FromStrRadix16(line[..i], kind) == Some(ParseLine(kind, line).value.0);
  }

  /** A line written as the hash's fixed-width hex digits, a space and a text (which may
      itself hold spaces) reads back as that hash and text. */
  lemma ParseFormattedLine(kind: HashKind, hash: nat, text: string)
    requires hash < Limit(kind)
    ensures ParseLine(kind, HashHex(kind, hash) + " " + text) == Success((hash, text))
  {
    LimitIsPow16(kind);
    var w := HexWidth(kind);
    var d := HexDigits(hash, w);
    var line := d + " " + text;
    HexValueOfHexDigits(hash, w);
    assert line[w] == ' ';
    assert line[..w] == d;
    assert ' ' !in d by {
      forall i | 0 <= i < w ensures d[i] != ' ' { assert IsUpperHexDigit(d[i]); }
    }
    var i := FirstSpace(line);
    assert i == w;
    assert d[0] != '+' by { assert IsUpperHexDigit(d[0]); }
    assert line[w + 1..] == text;
  }

  /** Any digit string of either case, padded or not, followed by a space and a text,
      reads back as its value and that text when the value fits the width, and is a
      bad-hex line when it does not. */
  lemma ParseHexLine(kind: HashKind, d: string, text: string)
    requires d != [] && forall i | 0 <= i < |d| :: IsHexDigit(d[i])
    ensures ParseLine(kind, d + " " + text)
      == if HexValue(d) < Limit(kind) then Success((HexValue(d), text)) else Failure(BadHex)
  {
    var line := d + " " + text;
    assert line[|d|] == ' ' && line[..|d|] == d;
    assert ' ' !in d by {
      forall i | 0 <= i < |d| ensures d[i] != ' ' { assert IsHexDigit(d[i]); }
    }
    assert FirstSpace(line) == |d|;
    assert d[0] != '+' by { assert IsHexDigit(d[0]); }
    assert line[|d| + 1..] == text;
  }

  /** A zero digit appended multiplies the value by 16. */
  lemma HexValueShift(d: string)
    requires forall i | 0 <= i < |d| :: IsHexDigit(d[i])
    ensures HexValue(d + "0") == 16 * HexValue(d)
  {
    assert (d + "0")[..|d|] == d;
  }

  /** A leading '+' is accepted, and lower-case digits read as their value. */
  lemma ParsePlusLine()
    ensures ParseLine(Fnv, "+ff x") == Success((0xff, "x"))
  {
    assert FirstSpace("+ff x") == 3 by {
      assert "+ff x"[1..] == "ff x" && "ff x"[1..] == "f x" && "f x"[1..] == " x";
    }
    assert "+ff x"[..3] == "+ff" && "+ff"[1..] == "ff" && "+ff x"[4..] == "x";
    assert HexValue("ff") == 0xff by { assert "ff"[..1] == "f" && "f"[..0] == ""; }
  }

  /** A '+' with no digits after it is not a number. */
  lemma ParseLonePlus()
    ensures ParseLine(Fnv, "+ x") == Failure(BadHex)
  {
    assert FirstSpace("+ x") == 1 by { assert "+ x"[1..] == " x"; }
    assert "+ x"[..1] == "+" && "+"[1..] == "";
  }

  /** Nine digits whose value is 2^32 overflow a 32-bit hash. */
  lemma ParseOverflow()
    ensures ParseLine(Fnv, "100000000 x") == Failure(BadHex)
  {
    var d := "1";
    assert HexValue(d) == 1 by { assert d[..0] == ""; }
    var k := 0;
    while k < 8
      invariant 0 <= k <= 8 && |d| == k + 1 && d[0] == '1'
      invariant forall i | 1 <= i < |d| :: d[i] == '0'
      invariant HexValue(d) == Pow16(k)
    {
      HexValueShift(d);
      d := d + "0";
      k := k + 1;
    }
    assert d == "100000000";
    assert Pow16(8) == 0x1_0000_0000 by { LimitIsPow16(Fnv); }
    ParseHexLine(Fnv, d, "x");
    assert d + " " + "x" == "100000000 x";
  }

  /** `read_from_file` over the lines of a file: each line is parsed and inserted in order;
      the first malformed line stops the load with its error, keeping what came before. */
  function LoadLines(kind: HashKind, list: map<nat, string>, lines: seq<string>)
    : (r: (map<nat, string>, Result<(), LineError>))
    ensures list.Keys <= r.0.Keys
    decreases |lines|
  {
    if lines == [] then (list, Success(()))
    else match ParseLine(kind, lines[0])
      case Failure(e) => (list, Failure(e))
      case Success((h, text)) => LoadLines(kind, list[h := text], lines[1..])
  }

  /** The hash a line that parses stands for. */
  function LineHash(kind: HashKind, line: string): nat
    requires ParseLine(kind, line).Success?
  {
    ParseLine(kind, line).value.0
  }

  /** Loading keeps every key within the hash width. */
  lemma {:induction false} LoadLinesKeysFit(kind: HashKind, list: map<nat, string>, lines: seq<string>)
    requires forall h | h in list :: h < Limit(kind)
    ensures forall h | h in LoadLines(kind, list, lines).0 :: h < Limit(kind)
    decreases |lines|
  {
    if lines != [] && ParseLine(kind, lines[0]).Success? {
      var (h, text) := ParseLine(kind, lines[0]).value;
      LoadLinesKeysFit(kind, list[h := text], lines[1..]);
    }
  }

  /** A load that succeeds has parsed every line. */
  lemma {:induction false} LoadLinesParsedAll(kind: HashKind, list: map<nat, string>, lines: seq<string>)
    requires LoadLines(kind, list, lines).1.Success?
    ensures forall i | 0 <= i < |lines| :: ParseLine(kind, lines[i]).Success?
    decreases |lines|
  {
    if lines != [] {
      var (k, text) := ParseLine(kind, lines[0]).value;
      LoadLinesParsedAll(kind, list[k := text], lines[1..]);
      assert forall i | 1 <= i < |lines| :: lines[i] == lines[1..][i - 1];
    }
  }

  /** A hash that no line names keeps what the table held for it before (or its absence). */
  lemma {:induction false} LoadLinesKeepsUnnamed(kind: HashKind, list: map<nat, string>, lines: seq<string>, h: nat)
    requires LoadLines(kind, list, lines).1.Success?
    requires forall i | 0 <= i < |lines| && ParseLine(kind, lines[i]).Success? :: LineHash(kind, lines[i]) != h
    ensures var m := LoadLines(kind, list, lines).0;
      (h in m <==> h in list) && (h in list ==> m[h] == list[h])
    decreases |lines|
  {
    if lines != [] {
      var (k, text) := ParseLine(kind, lines[0]).value;
      assert forall i | 0 <= i < |lines| - 1 :: lines[1..][i] == lines[i + 1];
      LoadLinesKeepsUnnamed(kind, list[k := text], lines[1..], h);
    }
  }

  /** When every line parses, a hash named by some line ends up with the text of the LAST
      line naming it: a later line with the same hash overwrites an earlier one. */
  lemma {:induction false} LoadLinesLastWins(kind: HashKind, list: map<nat, string>, lines: seq<string>, i: nat)
    requires LoadLines(kind, list, lines).1.Success?
    requires i < |lines| && ParseLine(kind, lines[i]).Success?
    requires forall j | i < j < |lines| && ParseLine(kind, lines[j]).Success? ::
      LineHash(kind, lines[j]) != LineHash(kind, lines[i])
    ensures var m := LoadLines(kind, list, lines).0;
      LineHash(kind, lines[i]) in m && m[LineHash(kind, lines[i])] == ParseLine(kind, lines[i]).value.1
    decreases |lines|
  {
    var (k, text) := ParseLine(kind, lines[0]).value;
    assert forall j | 0 <= j < |lines| - 1 :: lines[1..][j] == lines[j + 1];
    if i > 0 {
      LoadLinesLastWins(kind, list[k := text], lines[1..], i - 1);
    } else {
      LoadLinesKeepsUnnamed(kind, list[k := text], lines[1..], k);
    }
  }

  /** The index of the first line that does not parse, or the number of lines. */
  function FirstMalformed(kind: HashKind, lines: seq<string>): (i: nat)
    ensures i <= |lines|
    ensures forall j | 0 <= j < i :: ParseLine(kind, lines[j]).Success?
    ensures i < |lines| ==> ParseLine(kind, lines[i]).Failure?
    decreases |lines|
  {
    if lines == [] || ParseLine(kind, lines[0]).Failure? then 0
    else
      var k := FirstMalformed(kind, lines[1..]);
      assert forall j | 1 <= j < k + 1 :: lines[j] == lines[1..][j - 1];
      k + 1
  }

  /** A load stops at the first line that does not parse and reports that line's error;
      the table then holds exactly what the lines before it put there. */
  lemma {:induction false} LoadLinesStopsAtFirstError(kind: HashKind, list: map<nat, string>, lines: seq<string>)
    ensures var i := FirstMalformed(kind, lines);
      LoadLines(kind, list, lines)
        == (LoadLines(kind, list, lines[..i]).0,
            if i < |lines| then Failure(ParseLine(kind, lines[i]).error) else Success(()))
    decreases |lines|
  {
    if lines != [] {
      match ParseLine(kind, lines[0])
      case Failure(e) =>
        assert lines[..0] == [];
      case Success((h, text)) =>
        var tail := lines[1..];
        var j := FirstMalformed(kind, tail);
        var i := FirstMalformed(kind, lines);
        assert i == j + 1;
        LoadLinesStopsAtFirstError(kind, list[h := text], tail);
        var front := lines[..i];
        assert front[0] == lines[0] && front[1..] == tail[..j];
        assert LoadLines(kind, list, front) == LoadLines(kind, list[h := text], tail[..j]);
        if i < |lines| { assert tail[j] == lines[i]; }
    } else {
      assert lines[..0] == lines;
    }
  }

  /** One of the five dictionaries (`BinHashList<T>`), filled in place by `read_from_file`. */
  class BinHashList {
    const kind: HashKind
    var list: map<nat, string>

    ghost predicate Valid()
      reads this
    {
      forall h | h in list :: h < Limit(kind)
    }

    /** `BinHashList::new` */
    constructor (kind: HashKind)
      ensures Valid() && this.kind == kind && list == map[]
    {
      this.kind := kind;
      list := map[];
    }

    /** `BinHashList::get` */
    function Get(hash: nat): (n: HashedName)
      reads this
      requires hash < Limit(kind)
      ensures n.kind == kind && n.hash == hash
      ensures hash in list ==> n.unhashed == list[hash]
      ensures hash !in list ==> n.unhashed == []
    {
      Lookup(kind, list, hash)
    }

    /** `read_from_file`, given the file's lines. */
    method ReadFromLines(lines: seq<string>) returns (r: Result<(), LineError>)
      requires Valid()
      modifies this
      ensures Valid()
      ensures (list, r) == LoadLines(kind, old(list), lines)
    {
      var i := 0;
      while i < |lines|
        invariant 0 <= i <= |lines| && Valid()
        invariant LoadLines(kind, old(list), lines) == LoadLines(kind, list, lines[i..])
      {
        assert lines[i..][1..] == lines[i + 1..];
        var parsed := ParseLine(kind, lines[i]);
        if parsed.Failure? {
          return Failure(parsed.error);
        }
        var (h, text) := parsed.value;
        list := list[h := text];
        i := i + 1;
      }
      r := Success(());
    }
  }

  /** The contents of the five dictionaries, by role. */
  datatype Names = Names(
    entries: map<nat, string>,
    fields: map<nat, string>,
    hashes: map<nat, string>,
    types: map<nat, string>,
    paths: map<nat, string>)

  /** `BinHashes`: the five dictionaries, by role. */
  class BinHashes {
    const entries: BinHashList
    const fields: BinHashList
    const hashes: BinHashList
    const types: BinHashList
    const paths: BinHashList

    ghost predicate Valid()
      reads entries, fields, hashes, types, paths
    {
      && entries.kind == Fnv && fields.kind == Fnv && hashes.kind == Fnv && types.kind == Fnv
      && paths.kind == Xxh
      && entries.Valid() && fields.Valid() && hashes.Valid() && types.Valid() && paths.Valid()
    }

    /** What the tables hold now. */
    function Contents(): Names
      reads entries, fields, hashes, types, paths
    {
      Names(entries.list, fields.list, hashes.list, types.list, paths.list)
    }

    /** `BinHashes::new`: five new, separate, empty tables. */
    constructor ()
      ensures Valid() && Contents() == Names(map[], map[], map[], map[], map[])
      ensures fresh(entries) && fresh(fields) && fresh(hashes) && fresh(types) && fresh(paths)
      ensures entries != fields && entries != hashes && entries != types && entries != paths
      ensures fields != hashes && fields != types && fields != paths
      ensures hashes != types && hashes != paths && types != paths
    {
      entries := new BinHashList(Fnv);
      fields := new BinHashList(Fnv);
      hashes := new BinHashList(Fnv);
      types := new BinHashList(Fnv);
      paths := new BinHashList(Xxh);
    }
  }

  /** Every lookup in an empty table yields the bare hash, displayed as hex. */
  lemma EmptyTableUnlabelled(kind: HashKind, hash: nat)
    requires hash < Limit(kind)
    ensures Lookup(kind, map[], hash) == FromHash(kind, hash)
    ensures FormatTo(Lookup(kind, map[], hash)) == "0x" + HashHex(kind, hash)
  {
  }

  /** A line loaded into a table is what the table then answers for its hash, unless a
      later line names the same hash. */
  lemma LoadedLineResolves(kind: HashKind, list: map<nat, string>, hash: nat, text: string)
    requires hash < Limit(kind)
    ensures var r := LoadLines(kind, list, [HashHex(kind, hash) + " " + text]);
      r.1 == Success(()) && Lookup(kind, r.0, hash) == FromHashString(kind, hash, text)
  {
    LimitIsPow16(kind);
    ParseFormattedLine(kind, hash, text);
  }
}
