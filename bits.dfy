/** Positional notation: bits, bytes and big-endian digit strings in any base. */
module Bits {

  type Bit = b: int | 0 <= b < 2
  type Byte = b: int | 0 <= b < 256

  function Pow(base: nat, e: nat): nat
  {
    if e == 0 then 1 else base * Pow(base, e - 1)
  }

  /** `n` zero digits. */
  function Zeros(n: nat): (z: seq<int>)
    ensures |z| == n && forall i | 0 <= i < n :: z[i] == 0
  {
    seq(n, _ => 0)
  }

  /** Every element of `ds` is a digit of `base`. */
  predicate IsDigits(ds: seq<int>, base: nat)
  {
    forall i | 0 <= i < |ds| :: 0 <= ds[i] < base
  }

  /** The number the digits `ds` spell in `base`, most significant digit first. */
  function ValueBE(ds: seq<int>, base: nat): int
  {
    if ds == [] then 0 else ValueBE(ds[..|ds| - 1], base) * base + ds[|ds| - 1]
  }

  /** The lowest `len` digits of `v` in `base`, most significant digit first. */
  function DigitsBE(v: nat, base: nat, len: nat): (ds: seq<int>)
    requires base >= 2
    ensures |ds| == len && IsDigits(ds, base)
  {
    if len == 0 then [] else DigitsBE(v / base, base, len - 1) + [v % base]
  }

  lemma PowOfTwo8()
    ensures Pow(2, 8) == 256
  {
  }

  /** Powers of a positive base are positive and grow with the exponent. */
  lemma PowPositive(base: nat, e: nat)
    requires base >= 1
    ensures Pow(base, e) >= 1
  {
  }

  lemma {:induction false} PowMonotone(base: nat, e1: nat, e2: nat)
    requires base >= 1 && e1 <= e2
    ensures Pow(base, e1) <= Pow(base, e2)
  {
    if e1 < e2 {
      PowMonotone(base, e1, e2 - 1);
      PowPositive(base, e2 - 1);
      MulLe(1, base, Pow(base, e2 - 1));
    }
  }

  lemma MulLe(a: int, b: int, c: nat)
    requires a <= b
    ensures a * c <= b * c
  {
  }

  lemma DivMulAdd(q: int, b: int, d: int)
    requires b > 0 && 0 <= d < b
    ensures (q * b + d) / b == q && (q * b + d) % b == d
  {
    var x := q * b + d;
    var q', d' := x / b, x % b;
    assert q' * b + d' == q * b + d;
    if q' > q {
      MulLe(q + 1, q', b);
      assert false;
    } else if q' < q {
      MulLe(q' + 1, q, b);
      assert false;
    }
  }

  lemma DivMod(v: int, b: int)
    requires b > 0
    ensures v == (v / b) * b + v % b
  {
  }

  lemma DivShrinks(v: nat, base: nat)
    requires 2 <= base && v >= 1
    ensures v / base < v
  {
    var q, r := v / base, v % base;
    DivMod(v, base);
    MulLe(2, base, q);
    assert 0 <= r;
    assert v == q * base + r;
    assert 2 * q <= base * q;
  }

  lemma DivBound(v: nat, b: nat, p: nat)
    requires b > 0 && v < b * p
    ensures v / b < p
  {
    if v / b >= p {
      MulLe(p, v / b, b);
      assert false;
    }
  }

  lemma DigitStep(a: int, d: int, base: int, p: int)
    requires 0 <= a < p && 0 <= d < base
    ensures 0 <= a * base + d < base * p
  {
    MulLe(a + 1, p, base);
    assert (a + 1) * base == a * base + base;
    assert p * base == base * p;
  }

  /** A digit string is worth less than `base` to the power of its length. */
  lemma {:induction false} ValueBound(ds: seq<int>, base: nat)
    requires base >= 1 && IsDigits(ds, base)
    ensures 0 <= ValueBE(ds, base) < Pow(base, |ds|)
  {
    if ds != [] {
      var init, d := ds[..|ds| - 1], ds[|ds| - 1];
      assert IsDigits(init, base) by {
        forall i | 0 <= i < |init| ensures 0 <= init[i] < base { assert init[i] == ds[i]; }
      }
      ValueBound(init, base);
      var a, p := ValueBE(init, base), Pow(base, |init|);
      assert ValueBE(ds, base) == a * base + d;
      assert Pow(base, |ds|) == base * p;
      DigitStep(a, d, base, p);
    }
  }

  /** Reading a digit string and writing it back at the same width gives it back. */
  lemma {:induction false} DigitsOfValue(ds: seq<int>, base: nat)
    requires base >= 2 && IsDigits(ds, base)
    ensures ValueBE(ds, base) >= 0 && DigitsBE(ValueBE(ds, base), base, |ds|) == ds
  {
    ValueBound(ds, base);
    if ds != [] {
      var init, d := ds[..|ds| - 1], ds[|ds| - 1];
      assert IsDigits(init, base) by {
        forall i | 0 <= i < |init| ensures 0 <= init[i] < base { assert init[i] == ds[i]; }
      }
      ValueBound(init, base);
      DivMulAdd(ValueBE(init, base), base, d);
      DigitsOfValue(init, base);
      assert ds == init + [d];
    }
  }

  /** Writing `v` with enough digits and reading it back gives `v`. */
  lemma {:induction false} ValueOfDigits(v: nat, base: nat, len: nat)
    requires base >= 2 && v < Pow(base, len)
    ensures ValueBE(DigitsBE(v, base, len), base) == v
    decreases len
  {
    if len > 0 {
      var q, r := v / base, v % base;
      DigitsSplit(v, base, len);
      ValueOfDigits(q, base, len - 1);
      var init := DigitsBE(q, base, len - 1);
      assert ValueBE(init + [r], base) == v by {
        ValueSnoc(init, r, base);
        DivMod(v, base);
      }
    } else {
      assert Pow(base, len) == 1;
      assert DigitsBE(v, base, len) == [];
    }
  }

  /** The last digit of `v` is `v % base`, and the others are those of `v / base`. */
  lemma DigitsSplit(v: nat, base: nat, len: nat)
    requires base >= 2 && len > 0 && v < Pow(base, len)
    ensures v / base < Pow(base, len - 1)
    ensures DigitsBE(v, base, len) == DigitsBE(v / base, base, len - 1) + [v % base]
  {
    assert Pow(base, len) == base * Pow(base, len - 1);
    DivBound(v, base, Pow(base, len - 1));
  }

  lemma ValueSnoc(init: seq<int>, d: int, base: nat)
    ensures ValueBE(init + [d], base) == ValueBE(init, base) * base + d
  {
    assert (init + [d])[..|init|] == init;
  }

  /** The digits of zero are all zero. */
  lemma {:induction false} DigitsOfZero(base: nat, len: nat)
    requires base >= 2
    ensures DigitsBE(0, base, len) == Zeros(len)
  {
    if len > 0 {
      DigitsOfZero(base, len - 1);
    }
  }

  /** Writing a number at a larger width only adds leading zeros. */
  lemma {:induction false} DigitsWiden(v: nat, base: nat, len: nat, m: nat)
    requires base >= 2 && v < Pow(base, len)
    ensures DigitsBE(v, base, len + m) == Zeros(m) + DigitsBE(v, base, len)
    decreases len
  {
    if len == 0 {
      DigitsOfZero(base, m);
    } else {
      DivBound(v, base, Pow(base, len - 1));
      DigitsWiden(v / base, base, len - 1, m);
      assert DigitsBE(v, base, len + m)
          == DigitsBE(v / base, base, len - 1 + m) + [v % base];
    }
  }

  lemma EmptyRight<T>(a: seq<T>)
    ensures a + [] == a
  {
  }
}
