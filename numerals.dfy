/** Python's integer-to-text conversions used by the emitters: `hex`, `bin`, `str`
    (digits only, after the `0x`/`0b` prefix is sliced off) and `str.zfill`. */
module Numerals {
  import opened Bits

  /** The lowercase digit Python prints for `d`. */
  function DigitChar(d: nat): char
    requires d < 16
  {
    if d < 10 then ('0' as int + d) as char else ('a' as int + d - 10) as char
  }

  predicate IsLowerHexDigit(c: char)
  {
    '0' <= c <= '9' || 'a' <= c <= 'f'
  }

  /** The value of a lowercase hexadecimal digit (0 for any other character). */
  function DigitValue(c: char): nat
  {
    if '0' <= c <= '9' then c as int - '0' as int
    else if 'a' <= c <= 'f' then c as int - 'a' as int + 10
    else 0
  }

  /** The characters of a digit string. */
  function DigitString(ds: seq<int>): (s: string)
    requires IsDigits(ds, 16)
    ensures |s| == |ds|
  {
    if ds == [] then [] else DigitString(ds[..|ds| - 1]) + [DigitChar(ds[|ds| - 1])]
  }

  /** Reads a string of digits in `base`, most significant first. */
  function ParseDigits(s: string, base: nat): int
  {
    if s == [] then 0 else ParseDigits(s[..|s| - 1], base) * base + DigitValue(s[|s| - 1])
  }

  /** The number of digits of `v` in `base`: one for a single digit, and one more for each
      division by `base` that leaves a number of at least one digit. */
  function NumLen(v: nat, base: nat): (n: nat)
    requires 2 <= base
    ensures n >= 1
  {
    if v < base then 1 else DivShrinks(v, base); 1 + NumLen(v / base, base)
  }

  /** The digits of `v` in `base` as Python prints them: no prefix, no leading zero
      (`hex(v)[2:]`, `bin(v)[2:]` and `str(v)` for bases 16, 2 and 10). */
  function Numeral(v: nat, base: nat): (s: string)
    requires 2 <= base <= 16
    ensures |s| == NumLen(v, base)
    ensures forall i | 0 <= i < |s| :: IsLowerHexDigit(s[i])
  {
    DigitStringIsLowerHex(DigitsBE(v, base, NumLen(v, base)));
    DigitString(DigitsBE(v, base, NumLen(v, base)))
  }

  /** `s.zfill(width)` for a string without sign: zeros on the left up to `width`;
      a longer string is left as it is. */
  function ZFill(s: string, width: nat): (r: string)
    ensures |r| == if |s| >= width then |s| else width
  {
    if |s| >= width then s else seq(width - |s|, _ => '0') + s
  }

  /** Python's `hex(v)` for a non-negative `v`. */
  function Hex(v: nat): string
  {
    "0x" + Numeral(v, 16)
  }

  /** Python's `str(v)` for a non-negative `v`. */
  function Decimal(v: nat): string
  {
    Numeral(v, 10)
  }

  /** `hex(v)[2:].zfill(width)`: lowercase hexadecimal digits that read back as `v`, never
      fewer than `width` of them, and exactly `width` when `v < 16^width`. */
  function HexField(v: nat, width: nat): (r: string)
    ensures forall i | 0 <= i < |r| :: IsLowerHexDigit(r[i])
    ensures ParseDigits(r, 16) == v
    ensures |r| >= width
    ensures width >= 1 ==> (|r| == width <==> v < Pow(16, width))
  {
    ZFillLowerHex(Numeral(v, 16), width);
    ParseZFill(v, 16, width);
    assert width >= 1 ==> (|ZFill(Numeral(v, 16), width)| == width <==> v < Pow(16, width)) by {
      if width >= 1 {
        ZFillLength(v, 16, width);
      }
    }
    ZFill(Numeral(v, 16), width)
  }

  /** `bin(b)[2:].zfill(8)` of a byte: its eight bits, most significant first. */
  function Bin8(b: Byte): (r: string)
    ensures r == DigitString(DigitsBE(b, 2, 8))
  {
    PowOfTwo8();
    ZFillIsFixedWidth(b, 2, 8);
    ZFill(Numeral(b, 2), 8)
  }

  lemma DigitStringSnoc(ds: seq<int>, d: int)
    requires IsDigits(ds, 16) && 0 <= d < 16
    ensures IsDigits(ds + [d], 16) && DigitString(ds + [d]) == DigitString(ds) + [DigitChar(d)]
  {
    assert (ds + [d])[..|ds|] == ds;
  }

  /** From the base on, the numeral is that of `v / base` followed by the last digit. */
  lemma NumeralSnoc(v: nat, base: nat)
    requires 2 <= base <= 16 && v >= base
    ensures Numeral(v, base) == Numeral(v / base, base) + [DigitChar(v % base)]
  {
    var n := NumLen(v / base, base);
    DigitsSnoc(v, base, n);
    DigitStringSnoc(DigitsBE(v / base, base, n), v % base);
  }

  lemma DigitsSnoc(v: nat, base: nat, n: nat)
    requires 2 <= base
    ensures DigitsBE(v, base, n + 1) == DigitsBE(v / base, base, n) + [v % base]
  {
  }

  /** Python's numeral spells `v` in exactly as many digits as it has. */
  lemma NumeralDigits(v: nat, base: nat)
    requires 2 <= base <= 16
    ensures Numeral(v, base) == DigitString(DigitsBE(v, base, |Numeral(v, base)|))
  {
  }

  lemma DivAtLeastOne(v: nat, base: nat)
    requires 1 <= base <= v
    ensures v / base >= 1
  {
    DivMod(v, base);
  }

  lemma LeadingDigitStep(q: int, r: int, base: int, p: int)
    requires 0 <= p <= q && 0 <= r && base >= 0
    ensures base * p <= q * base + r
  {
    MulLe(p, q, base);
  }

  /** `v` fits in as many digits as Python prints for it. */
  lemma {:induction false} NumeralFits(v: nat, base: nat)
    requires 2 <= base <= 16
    ensures v < Pow(base, |Numeral(v, base)|)
  {
    if v >= base {
      var q, r := v / base, v % base;
      DivShrinks(v, base);
      NumeralFits(q, base);
      var n := |Numeral(q, base)|;
      NumeralSnoc(v, base);
      var p := Pow(base, n);
      assert Pow(base, |Numeral(v, base)|) == base * p;
      DivMod(v, base);
      DigitStep(q, r, base, p);
    }
  }

  /** Python's numeral has no leading zero: a non-zero `v` needs all its digits. */
  lemma {:induction false} NumeralIsShortest(v: nat, base: nat)
    requires 2 <= base <= 16
    ensures v == 0 || Pow(base, |Numeral(v, base)| - 1) <= v
  {
    if v >= base {
      var q, r := v / base, v % base;
      DivShrinks(v, base);
      NumeralIsShortest(q, base);
      var n := |Numeral(q, base)|;
      NumeralSnoc(v, base);
      DivAtLeastOne(v, base);
      var p' := Pow(base, n - 1);
      assert Pow(base, |Numeral(v, base)| - 1) == base * p';
      DivMod(v, base);
      LeadingDigitStep(q, r, base, p');
    }
  }

  /** Character `j` of a digit string is the character of digit `j`. */
  lemma {:induction false} DigitStringAt(ds: seq<int>, j: nat)
    requires IsDigits(ds, 16) && j < |ds|
    ensures DigitString(ds)[j] == DigitChar(ds[j])
  {
    var n := |ds| - 1;
    if j < n {
      var init := ds[..n];
      assert IsDigits(init, 16) by {
        forall i | 0 <= i < n ensures 0 <= init[i] < 16 { assert init[i] == ds[i]; }
      }
      DigitStringAt(init, j);
    }
  }

  /** A string of binary digits shows `1` for each set digit and `0` for each clear one. */
  lemma BinaryDigitString(ds: seq<int>)
    requires IsDigits(ds, 2)
    ensures IsDigits(ds, 16)
    ensures forall j | 0 <= j < |ds| :: DigitString(ds)[j] == if ds[j] == 1 then '1' else '0'
  {
    forall j | 0 <= j < |ds| ensures DigitString(ds)[j] == if ds[j] == 1 then '1' else '0' {
      DigitStringAt(ds, j);
    }
  }

  lemma DigitStringAppend(a: seq<int>, b: seq<int>)
    requires IsDigits(a, 16) && IsDigits(b, 16)
    ensures IsDigits(a + b, 16) && DigitString(a + b) == DigitString(a) + DigitString(b)
  {
    assert IsDigits(a + b, 16) by {
      forall i | 0 <= i < |a + b| ensures 0 <= (a + b)[i] < 16 {
        if i < |a| { assert (a + b)[i] == a[i]; } else { assert (a + b)[i] == b[i - |a|]; }
      }
    }
    var l, r := DigitString(a + b), DigitString(a) + DigitString(b);
    forall i | 0 <= i < |l| ensures l[i] == r[i] {
      DigitStringAt(a + b, i);
      if i < |a| {
        DigitStringAt(a, i);
      } else {
        DigitStringAt(b, i - |a|);
      }
    }
  }

  lemma DigitStringZeros(k: nat)
    ensures IsDigits(Zeros(k), 16) && DigitString(Zeros(k)) == seq(k, _ => '0')
  {
    forall i | 0 <= i < k ensures DigitString(Zeros(k))[i] == '0' {
      DigitStringAt(Zeros(k), i);
    }
  }

  /** A number below `base^width` has at most `width` digits. */
  lemma NumeralWithin(v: nat, base: nat, width: nat)
    requires 2 <= base <= 16 && width >= 1 && v < Pow(base, width)
    ensures |Numeral(v, base)| <= width
  {
    var n := |Numeral(v, base)|;
    if n > width {
      NumeralIsShortest(v, base);
      assert v != 0;
      PowMonotone(base, width, n - 1);
    }
  }

  /** Zero-filling a numeral to a width it fits in writes exactly that many digits of `v`. */
  lemma ZFillIsFixedWidth(v: nat, base: nat, width: nat)
    requires 2 <= base <= 16 && width >= 1 && v < Pow(base, width)
    ensures |Numeral(v, base)| <= width
    ensures ZFill(Numeral(v, base), width) == DigitString(DigitsBE(v, base, width))
  {
    NumeralWithin(v, base, width);
    var s := Numeral(v, base);
    var n := |s|;
    NumeralDigits(v, base);
    NumeralFits(v, base);
    DigitsWiden(v, base, n, width - n);
    var ds := DigitsBE(v, base, n);
    assert s == DigitString(ds);
    assert DigitsBE(v, base, width) == Zeros(width - n) + ds;
    DigitStringZeros(width - n);
    DigitStringAppend(Zeros(width - n), ds);
    assert ZFill(s, width) == seq(width - n, _ => '0') + s;
  }

  /** Reading the characters of a digit string gives back its value. */
  lemma {:induction false} ParseDigitString(ds: seq<int>, base: nat)
    requires IsDigits(ds, 16)
    ensures ParseDigits(DigitString(ds), base) == ValueBE(ds, base)
  {
    if ds != [] {
      var init := ds[..|ds| - 1];
      assert IsDigits(init, 16) by {
        forall i | 0 <= i < |init| ensures 0 <= init[i] < 16 { assert init[i] == ds[i]; }
      }
      ParseDigitString(init, base);
      var s := DigitString(ds);
      assert s[..|s| - 1] == DigitString(init);
      assert DigitValue(DigitChar(ds[|ds| - 1])) == ds[|ds| - 1];
    }
  }

  /** A digit string is written in lowercase hexadecimal digits. */
  lemma DigitStringIsLowerHex(ds: seq<int>)
    requires IsDigits(ds, 16)
    ensures forall i | 0 <= i < |DigitString(ds)| :: IsLowerHexDigit(DigitString(ds)[i])
  {
    forall i | 0 <= i < |ds| ensures IsLowerHexDigit(DigitString(ds)[i]) {
      DigitStringAt(ds, i);
    }
  }

  /** `zfill` writes zeros up to `width` and then the string itself. */
  lemma ZFillAt(s: string, width: nat)
    ensures var r := ZFill(s, width);
      forall i | 0 <= i < |r| :: r[i] == if i < |r| - |s| then '0' else s[i - (|r| - |s|)]
  {
  }

  /** Zero-filling keeps a string of lowercase hexadecimal digits one. */
  lemma ZFillLowerHex(s: string, width: nat)
    requires forall i | 0 <= i < |s| :: IsLowerHexDigit(s[i])
    ensures forall i | 0 <= i < |ZFill(s, width)| :: IsLowerHexDigit(ZFill(s, width)[i])
  {
    ZFillAt(s, width);
  }

  /** Reading back the digits Python prints for `v` gives `v`. */
  lemma ParseNumeral(v: nat, base: nat)
    requires 2 <= base <= 16
    ensures ParseDigits(Numeral(v, base), base) == v
  {
    var n := |Numeral(v, base)|;
    NumeralDigits(v, base);
    NumeralFits(v, base);
    ParseDigitString(DigitsBE(v, base, n), base);
    ValueOfDigits(v, base, n);
  }

  /** Reading back a zero-filled numeral gives `v`, whatever the width. */
  lemma ParseZFill(v: nat, base: nat, width: nat)
    requires 2 <= base <= 16
    ensures ParseDigits(ZFill(Numeral(v, base), width), base) == v
  {
    if width >= 1 && v < Pow(base, width) {
      ZFillIsFixedWidth(v, base, width);
      ParseDigitString(DigitsBE(v, base, width), base);
      ValueOfDigits(v, base, width);
    } else {
      if |Numeral(v, base)| < width {
        NumeralFits(v, base);
        PowMonotone(base, |Numeral(v, base)|, width);
      }
      ParseNumeral(v, base);
    }
  }

  /** A zero-filled numeral is exactly `width` long when `v` has at most `width` digits, and
      longer otherwise: zfill never truncates. */
  lemma ZFillLength(v: nat, base: nat, width: nat)
    requires 2 <= base <= 16 && width >= 1
    ensures |ZFill(Numeral(v, base), width)| >= width
    ensures |ZFill(Numeral(v, base), width)| == width <==> v < Pow(base, width)
  {
    var n := |Numeral(v, base)|;
    if v < Pow(base, width) {
      NumeralWithin(v, base, width);
    } else if n <= width {
      NumeralFits(v, base);
      PowMonotone(base, n, width);
      assert false;
    }
  }
}
