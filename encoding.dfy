/**
 * Byte and integer encodings that the Go code relies on:
 *   - big.Int.SetBytes (unsigned big-endian decoding),
 *   - big.Int.Bytes (minimal big-endian encoding of the absolute value),
 *   - fixed-width big-endian encoding (fr.Element.Marshal, 32 bytes),
 *   - big.Int.String for non-negative values (decimal digits).
 */
module Encoding {

  /** One byte; Go strings and []byte are both modelled as seq<byte>. */
  type byte = x: int | 0 <= x < 256

  const INT64_MIN: int := -0x8000_0000_0000_0000
  const INT64_MAX: int := 0x7fff_ffff_ffff_ffff

  /** Go's int64. */
  type int64 = x: int | -0x8000_0000_0000_0000 <= x <= 0x7fff_ffff_ffff_ffff

  function Pow256(n: nat): (r: nat)
    ensures r >= 1
  {
    if n == 0 then 1 else 256 * Pow256(n - 1)
  }

  /** 2^256, the bound of a 32-byte big-endian value. */
  const TWO_256: nat := 0x1_0000_0000_0000_0000_0000_0000_0000_0000_0000_0000_0000_0000_0000_0000_0000_0000

  lemma {:induction false} Pow256Add(a: nat, b: nat)
    ensures Pow256(a + b) == Pow256(a) * Pow256(b)
  {
    if b > 0 {
      Pow256Add(a, b - 1);
    }
  }

  lemma Pow256Of32()
    ensures Pow256(32) == TWO_256
  {
    assert Pow256(1) == 0x100;
    Pow256Add(1, 1);
    assert Pow256(2) == 0x1_0000;
    Pow256Add(2, 2);
    assert Pow256(4) == 0x1_0000_0000;
    Pow256Add(4, 4);
    assert Pow256(8) == 0x1_0000_0000_0000_0000;
    Pow256Add(8, 8);
    assert Pow256(16) == 0x1_0000_0000_0000_0000_0000_0000_0000_0000;
    Pow256Add(16, 16);
  }

  function Abs(x: int): (r: nat)
    ensures r == x || r == -x
  {
    if x < 0 then -x else x
  }

  /** big.Int.SetBytes: the bytes read as an unsigned big-endian number. */
  function FromBytes(s: seq<byte>): (n: nat)
    ensures n < Pow256(|s|)
  {
    if s == [] then 0
    else
      var prefix := FromBytes(s[..|s| - 1]);
      assert prefix <= Pow256(|s| - 1) - 1;
      prefix * 256 + s[|s| - 1]
  }

  lemma FromBytesSnoc(s: seq<byte>, b: byte)
    ensures FromBytes(s + [b]) == FromBytes(s) * 256 + b
  {
    assert (s + [b])[..|s|] == s;
  }

  /**
   * big.Int.Bytes for a non-negative value: the shortest big-endian encoding,
   * which is empty for 0 and never starts with a zero byte.
   */
  function MinimalBytes(n: nat): (s: seq<byte>)
    ensures FromBytes(s) == n
    ensures s == [] <==> n == 0
    ensures s != [] ==> s[0] != 0
  {
    if n == 0 then []
    else
      var high := MinimalBytes(n / 256);
      FromBytesSnoc(high, n % 256);
      high + [n % 256]
  }

  /** big.NewInt(x).Bytes(): the sign is dropped, only |x| is encoded. */
  function BigIntBytes(x: int): (s: seq<byte>)
    ensures FromBytes(s) == Abs(x)
    ensures s == [] <==> x == 0
    ensures s != [] ==> s[0] != 0
  {
    MinimalBytes(Abs(x))
  }

  /** A byte string in the form big.Int.Bytes produces: no leading zero byte. */
  predicate Canonical(s: seq<byte>)
  {
    s == [] || s[0] != 0
  }

  lemma {:induction false} LeadingByteNonZero(s: seq<byte>)
    requires s != [] && s[0] != 0
    ensures FromBytes(s) > 0
  {
    if |s| > 1 {
      var prefix := s[..|s| - 1];
      assert prefix[0] == s[0];
      LeadingByteNonZero(prefix);
    }
  }

  /** Minimal encoding and decoding are inverse bijections between nat and canonical byte strings. */
  lemma {:induction false} MinimalBytesOfCanonical(s: seq<byte>)
    requires Canonical(s)
    ensures MinimalBytes(FromBytes(s)) == s
  {
    if s != [] {
      LeadingByteNonZero(s);
      var prefix := s[..|s| - 1];
      var n := FromBytes(s);
      assert n / 256 == FromBytes(prefix) && n % 256 == s[|s| - 1];
      if prefix != [] {
        assert prefix[0] == s[0];
        MinimalBytesOfCanonical(prefix);
      }
      assert s == prefix + [s[|s| - 1]];
    }
  }

  /** Distinct magnitudes never share an encoding. */
  lemma MinimalBytesInjective(m: nat, n: nat)
    requires MinimalBytes(m) == MinimalBytes(n)
    ensures m == n
  {
    assert FromBytes(MinimalBytes(m)) == m;
  }

  /**
   * The encoding of a big.Int of any sign decodes to its absolute value, so x and -x
   * encode identically.
   */
  lemma BigIntBytesDropsSign(x: int)
    ensures FromBytes(BigIntBytes(x)) == Abs(x)
    ensures BigIntBytes(x) == BigIntBytes(-x)
  {
  }

  /** Fixed-width big-endian encoding (fr.Element.Marshal writes 32 such bytes). */
  function PadBytes(n: nat, width: nat): (s: seq<byte>)
    requires n < Pow256(width)
    ensures |s| == width && FromBytes(s) == n
  {
    if width == 0 then []
    else
      assert n / 256 < Pow256(width - 1);
      var high := PadBytes(n / 256, width - 1);
      FromBytesSnoc(high, n % 256);
      high + [n % 256]
  }

  /** []byte(s) for a string of ASCII characters: one byte per character. */
  function AsciiBytes(s: string): (b: seq<byte>)
    requires forall i :: 0 <= i < |s| ==> s[i] < 128 as char
    ensures |b| == |s| && forall i :: 0 <= i < |s| ==> b[i] == s[i] as int
  {
    if s == [] then [] else [s[0] as int] + AsciiBytes(s[1..])
  }

  /** Characters '0' to '9'. */
  predicate IsDigit(c: char)
  {
    '0' <= c <= '9'
  }

  predicate IsDecimal(s: string)
  {
    s != [] && (forall i :: 0 <= i < |s| ==> IsDigit(s[i])) && (|s| > 1 ==> s[0] != '0')
  }

  function DigitValue(c: char): (d: nat)
    requires IsDigit(c)
    ensures d < 10
  {
    c as int - '0' as int
  }

  /** Reads a string of decimal digits as a number. */
  function ParseDecimal(s: string): (n: nat)
    requires forall i :: 0 <= i < |s| ==> IsDigit(s[i])
  {
    if s == [] then 0 else ParseDecimal(s[..|s| - 1]) * 10 + DigitValue(s[|s| - 1])
  }

  /** big.Int.String() of a non-negative value. */
  function Decimal(n: nat): (s: string)
    ensures IsDecimal(s)
    ensures ParseDecimal(s) == n
  {
    var last := ('0' as int + n % 10) as char;
    if n < 10 then [last]
    else
      var high := Decimal(n / 10);
      assert (high + [last])[..|high|] == high;
      high + [last]
  }

  /** The decimal string determines the number: distinct field elements print differently. */
  lemma DecimalInjective(m: nat, n: nat)
    requires Decimal(m) == Decimal(n)
    ensures m == n
  {
    assert ParseDecimal(Decimal(m)) == m;
  }
}
