/**
  The backend's _octdec(): a permission value given either as an integer or as
  a string of octal digits ("0644") is turned into the integer mode.
 */
module Octal {

  /** The 'cache_file_umask' option: PHP accepts an integer or a string. */
  datatype Permission = IntPerm(n: int) | StringPerm(s: string)

  predicate IsOctalDigit(c: char)
  {
    '0' <= c <= '7'
  }

  /** A non-empty string of octal digits. */
  predicate IsOctalDigits(s: string)
  {
    |s| > 0 && forall i :: 0 <= i < |s| ==> IsOctalDigit(s[i])
  }

  /**
    The longest digit string whose octal value and whose decimal reading both
    stay below PHP_INT_MAX (2^63 - 1): 19 sevens read in decimal are below it,
    20 are not. Beyond this PHP works in floating point.
   */
  const MaxOctalDigits := 19

  /** The inputs this model gives to octdec(): octal digit strings PHP handles as integers. */
  predicate IsOctalString(s: string)
  {
    IsOctalDigits(s) && |s| <= MaxOctalDigits
  }

  function Pow8(k: nat): (r: nat)
    ensures r >= 1
  {
    if k == 0 then 1 else 8 * Pow8(k - 1)
  }

  function DigitValue(c: char): nat
    requires IsOctalDigit(c)
  {
    (c - '0') as nat
  }

  function DigitChar(d: nat): (c: char)
    requires d < 8
    ensures IsOctalDigit(c) && DigitValue(c) == d
  {
    ('0' as int + d) as char
  }

  /** PHP octdec($s) on a string of octal digits. */
  function OctalValue(s: string): nat
    requires forall i :: 0 <= i < |s| ==> IsOctalDigit(s[i])
  {
    if s == [] then 0 else 8 * OctalValue(s[..|s| - 1]) + DigitValue(s[|s| - 1])
  }

  /** The number a digit string denotes when PHP compares it as a numeric string. */
  function DecimalValue(s: string): nat
    requires forall i :: 0 <= i < |s| ==> IsOctalDigit(s[i])
  {
    if s == [] then 0 else 10 * DecimalValue(s[..|s| - 1]) + DigitValue(s[|s| - 1])
  }

  /** PHP decoct($n): the octal digits of n, without leading zeros. */
  function Decoct(n: nat): (r: string)
    ensures IsOctalDigits(r)
    ensures |r| > 1 ==> r[0] != '0'
  {
    if n < 8 then [DigitChar(n)] else Decoct(n / 8) + [DigitChar(n % 8)]
  }

  /**
    _octdec($val): when decoct(octdec($val)) == $val (PHP's loose equality, which
    compares two numeric strings as numbers) and $val is a string, the octal
    value; otherwise $val unchanged.
   */
  function Octdec(v: Permission): (r: Permission)
    requires v.StringPerm? ==> IsOctalString(v.s)
    ensures v.IntPerm? ==> r == v
    ensures v.StringPerm? ==> r == IntPerm(OctalValue(v.s))
  {
    match v
    case IntPerm(_) => v
    case StringPerm(s) =>
      DecoctOctdecLooselyEqual(s);
      if DecimalValue(Decoct(OctalValue(s))) == DecimalValue(s) then IntPerm(OctalValue(s)) else v
  }

  lemma {:induction false} ZeroOctalIsZeroDecimal(s: string)
    requires forall i :: 0 <= i < |s| ==> IsOctalDigit(s[i])
    requires OctalValue(s) == 0
    ensures DecimalValue(s) == 0
  {
    if s != [] {
      ZeroOctalIsZeroDecimal(s[..|s| - 1]);
    }
  }

  /** The round trip of the guard: decoct(octdec(s)) reads as the same number as s. */
  lemma {:induction false} DecoctOctdecLooselyEqual(s: string)
    requires forall i :: 0 <= i < |s| ==> IsOctalDigit(s[i])
    ensures DecimalValue(Decoct(OctalValue(s))) == DecimalValue(s)
  {
    if s != [] {
      var p, d := s[..|s| - 1], DigitValue(s[|s| - 1]);
      var v := OctalValue(p);
      if v == 0 {
        ZeroOctalIsZeroDecimal(p);
        assert Decoct(OctalValue(s)) == [DigitChar(d)];
        assert [DigitChar(d)][..0] == [];
      } else {
        assert (8 * v + d) / 8 == v && (8 * v + d) % 8 == d;
        var q := Decoct(v);
        assert Decoct(OctalValue(s)) == q + [DigitChar(d)];
        assert (q + [DigitChar(d)])[..|q|] == q;
        DecoctOctdecLooselyEqual(p);
      }
    }
  }

  /** Reading decoct(n) back in base 8 gives n. */
  lemma {:induction false} OctalOfDecoct(n: nat)
    ensures OctalValue(Decoct(n)) == n
  {
    if n >= 8 {
      var q := Decoct(n / 8);
      assert (q + [DigitChar(n % 8)])[..|q|] == q;
      OctalOfDecoct(n / 8);
    } else {
      assert [DigitChar(n)][..0] == [];
    }
  }

  /** A number below 8^k has at most k octal digits. */
  lemma {:induction false} DecoctLength(n: nat, k: nat)
    requires k > 0 && n < Pow8(k)
    ensures |Decoct(n)| <= k
  {
    if n >= 8 {
      assert k > 1;
      DecoctLength(n / 8, k - 1);
    }
  }

  /** A leading '0' changes neither the digits' octal value nor their being digits. */
  lemma {:induction false} LeadingZeroIgnored(s: string)
    requires forall i :: 0 <= i < |s| ==> IsOctalDigit(s[i])
    ensures forall i :: 0 <= i < |"0" + s| ==> IsOctalDigit(("0" + s)[i])
    ensures OctalValue("0" + s) == OctalValue(s)
  {
    if s == [] {
      assert "0"[..0] == [];
    } else {
      var p := s[..|s| - 1];
      LeadingZeroIgnored(p);
      assert ("0" + s)[..|s|] == "0" + p;
    }
  }

  /**
    The option strings users write, such as "0644": a '0' followed by the
    octal digits of a mode converts to that mode, for every mode whose string
    fits in a PHP integer.
   */
  lemma LeadingZeroModeString(n: nat)
    requires n < Pow8(MaxOctalDigits - 1)
    ensures IsOctalString("0" + Decoct(n))
    ensures Octdec(StringPerm("0" + Decoct(n))) == IntPerm(n)
  {
    DecoctLength(n, MaxOctalDigits - 1);
    LeadingZeroIgnored(Decoct(n));
    OctalOfDecoct(n);
  }

  /**
    _octdec inverts decoct: the string PHP prints for a mode converts back to
    that mode, for every mode whose octal digits fit in a PHP integer.
   */
  lemma OctdecOfDecoct(n: nat)
    requires n < Pow8(MaxOctalDigits)
    ensures |Decoct(n)| <= MaxOctalDigits
    ensures Octdec(StringPerm(Decoct(n))) == IntPerm(n)
  {
    DecoctLength(n, MaxOctalDigits);
    OctalOfDecoct(n);
  }
}
