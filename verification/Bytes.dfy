/**
 Byte strings, their decimal rendering of integers, and the big-endian length prefixes.

 Text is represented by its UTF-8 bytes: the encoding is injective, it keeps the code-point
 order that Python's sorted() uses, and the byte of ':' occurs in no multi-byte character.
 */
module Bytes {
  import opened Wrappers

  type Byte = b: int | 0 <= b < 256
  type ByteString = seq<Byte>
  type Text = ByteString

  const COLON: Byte := 58
  const COMMA: Byte := 44
  const MINUS: Byte := 45
  const ZERO: Byte := 48

  const U16_MAX: nat := 0xFFFF
  const U32_MAX: nat := 0xFFFF_FFFF

  predicate IsAscii(s: string) {
    forall i | 0 <= i < |s| :: s[i] as int < 128
  }

  /** The bytes of an ASCII literal such as b"UXSP-HELLO". */
  function Ascii(s: string): (b: ByteString)
    requires IsAscii(s)
    ensures |b| == |s|
    ensures forall i | 0 <= i < |s| :: b[i] == s[i] as int
  {
    seq(|s|, i requires 0 <= i < |s| => s[i] as int)
  }

  // ---------------------------------------------------------------- str(int)

  function Digits(n: nat): (d: Text)
    ensures |d| > 0
    ensures forall i | 0 <= i < |d| :: ZERO <= d[i] < ZERO + 10
  {
    if n < 10 then [ZERO + n] else Digits(n / 10) + [ZERO + n % 10]
  }

  /** Python's str(i). */
  function Decimal(i: int): (d: Text)
    ensures |d| > 0
    ensures COLON !in d
  {
    if i < 0 then [MINUS] + Digits(-i) else Digits(i)
  }

  function DigitsValue(d: Text): int {
    if d == [] then 0 else DigitsValue(d[..|d| - 1]) * 10 + (d[|d| - 1] - ZERO)
  }

  lemma {:induction false} DigitsValueOfDigits(n: nat)
    ensures DigitsValue(Digits(n)) == n
  {
    var d := Digits(n);
    if n < 10 {
      assert d[..|d| - 1] == [];
    } else {
      DigitsValueOfDigits(n / 10);
      assert d[..|d| - 1] == Digits(n / 10);
    }
  }

  lemma DecimalInjective(i: int, j: int)
    requires Decimal(i) == Decimal(j)
    ensures i == j
  {
    var d := Decimal(i);
    DigitsValueOfDigits(if i < 0 then -i else i);
    DigitsValueOfDigits(if j < 0 then -j else j);
    assert i < 0 ==> d[1..] == Digits(-i);
    assert j < 0 ==> d[1..] == Digits(-j);
    assert i >= 0 ==> d[0] >= ZERO;
    assert j >= 0 ==> d[0] >= ZERO;
  }

  /** The additional data "<id>:<n>" names the number n unambiguously. */
  function Numbered(id: Text, n: int): Text {
    id + [COLON] + Decimal(n)
  }

  lemma NumberedInjective(id: Text, m: int, n: int)
    requires Numbered(id, m) == Numbered(id, n)
    ensures m == n
  {
    assert Numbered(id, m)[|id| + 1..] == Decimal(m);
    assert Numbered(id, n)[|id| + 1..] == Decimal(n);
    DecimalInjective(m, n);
  }

  lemma ColonAt(a: Text, x: Text)
    requires COLON !in a
    ensures var t := a + [COLON] + x;
      t[|a|] == COLON && t[..|a|] == a && t[|a| + 1..] == x && forall k | 0 <= k < |a| :: t[k] != COLON
  {}

  lemma FirstColon(a: Text, x: Text, b: Text, y: Text)
    requires COLON !in a && COLON !in b && a + [COLON] + x == b + [COLON] + y
    ensures a == b && x == y
  {
    ColonAt(a, x);
    ColonAt(b, y);
    assert !(|a| < |b|) && !(|b| < |a|);
  }

  // ---------------------------------------------------------------- big-endian integers

  function Pow256(width: nat): (p: nat)
    ensures p > 0
  {
    if width == 0 then 1 else 0x100 * Pow256(width - 1)
  }

  /** n.to_bytes(width, "big"), and struct.pack(">H") or (">I") for widths 2 and 4. */
  function BigEndian(n: nat, width: nat): (b: ByteString)
    ensures |b| == width
  {
    if width == 0 then [] else BigEndian(n / 0x100, width - 1) + [n % 0x100]
  }

  function FromBigEndian(b: ByteString): nat {
    if b == [] then 0 else FromBigEndian(b[..|b| - 1]) * 0x100 + b[|b| - 1]
  }

  lemma {:induction false} FromBigEndianInverse(n: nat, width: nat)
    requires n < Pow256(width)
    ensures FromBigEndian(BigEndian(n, width)) == n
  {
    if width > 0 {
      FromBigEndianInverse(n / 0x100, width - 1);
      var b := BigEndian(n, width);
      assert b[..|b| - 1] == BigEndian(n / 0x100, width - 1);
    }
  }

  lemma {:induction false} BigEndianInverse(b: ByteString)
    ensures FromBigEndian(b) < Pow256(|b|)
    ensures BigEndian(FromBigEndian(b), |b|) == b
  {
    if b != [] {
      BigEndianInverse(b[..|b| - 1]);
      assert b == b[..|b| - 1] + [b[|b| - 1]];
    }
  }

  lemma PowersOf256()
    ensures Pow256(2) == U16_MAX + 1 && Pow256(4) == U32_MAX + 1
  {
    assert Pow256(1) == 0x100 && Pow256(2) == 0x1_0000 && Pow256(3) == 0x100_0000;
  }

  // ---------------------------------------------------------------- known answers

  /** The first byte is the most significant, as struct.pack(">I") and setUint32 have it. */
  lemma BigEndianExample()
    ensures BigEndian(0x0102_0304, 4) == [1, 2, 3, 4]
  {
    assert BigEndian(0x0102_0304, 4) == BigEndian(0x01_0203, 3) + [4];
    assert BigEndian(0x01_0203, 3) == BigEndian(0x0102, 2) + [3];
    assert BigEndian(0x0102, 2) == BigEndian(1, 1) + [2];
    assert BigEndian(1, 1) == [1];
  }

  lemma DecimalExample()
    ensures Decimal(-120) == Ascii("-120") && Numbered(Ascii("a"), 7) == Ascii("a:7")
  {
    assert Digits(1) == [49] && Digits(12) == [49, 50] && Digits(120) == [49, 50, 48];
    assert Decimal(-120) == [45, 49, 50, 48];
  }
}
