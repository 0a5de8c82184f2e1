/**
 * Natural-number arithmetic shared by the byte packers and the serialisers:
 * powers, Euclidean division facts, and big-endian digit sequences in an
 * arbitrary base (bits are base 2, bytes base 256, limbs base 2^(8B)).
 */
module Digits {

  function Pow(b: nat, e: nat): nat
  {
    if e == 0 then 1 else b * Pow(b, e - 1)
  }

  lemma {:induction false} PowPositive(b: nat, e: nat)
    requires b > 0
    ensures Pow(b, e) > 0
  {
    if e > 0 {
      PowPositive(b, e - 1);
    }
  }

  lemma {:induction false} PowAdd(b: nat, x: nat, y: nat)
    ensures Pow(b, x + y) == Pow(b, x) * Pow(b, y)
    decreases x
  {
    if x > 0 {
      PowAdd(b, x - 1, y);
      assert Pow(b, x + y) == b * Pow(b, x - 1 + y);
      MulAssoc(b, Pow(b, x - 1), Pow(b, y));
    }
  }

  lemma {:induction false} PowMul(b: nat, x: nat, y: nat)
    ensures Pow(b, x * y) == Pow(Pow(b, x), y)
    decreases y
  {
    if y > 0 {
      PowMul(b, x, y - 1);
      assert x * y == x + x * (y - 1);
      PowAdd(b, x, x * (y - 1));
    }
  }

  lemma {:induction false} PowMonotone(b: nat, x: nat, y: nat)
    requires b > 0 && x <= y
    ensures Pow(b, x) <= Pow(b, y)
    decreases y
  {
    if x < y {
      PowMonotone(b, x, y - 1);
      PowPositive(b, y - 1);
      MulMonotone(1, b, Pow(b, y - 1));
      assert Pow(b, y) == b * Pow(b, y - 1);
    }
  }

  lemma MulAssoc(a: int, b: int, c: int)
    ensures a * (b * c) == (a * b) * c
  {
  }

  lemma MulComm(a: int, b: int)
    ensures a * b == b * a
  {
  }

  lemma MulDistrib(a: int, b: int, c: int)
    ensures (a + b) * c == a * c + b * c
  {
  }

  lemma MulGap(a: int, b: int, d: int)
    requires d > 0 && a >= b + 1
    ensures a * d >= b * d + d
  {
    assert a * d == (a - b - 1) * d + b * d + d;
  }

  lemma MulMonotone(a: int, b: int, c: int)
    requires a <= b && c >= 0
    ensures a * c <= b * c
  {
    assert b * c == a * c + (b - a) * c;
  }

  /** The quotient of a natural number by a positive divisor is a natural number. */
  lemma DivNonNegative(x: nat, d: nat)
    requires d > 0
    ensures x / d >= 0
  {
    var q := x / d;
    assert x == q * d + x % d;
    if q < 0 {
      MulGap(0, q, d);
    }
  }

  /** Euclidean division is determined by its defining equation. */
  lemma DivModUnique(x: int, d: int, q: int, r: int)
    requires d > 0 && 0 <= r < d && x == q * d + r
    ensures x / d == q && x % d == r
  {
    var q', r' := x / d, x % d;
    assert x == q' * d + r';
    if q > q' {
      MulGap(q, q', d);
    } else if q < q' {
      MulGap(q', q, d);
    }
  }

  lemma DivDiv(x: nat, a: nat, b: nat)
    requires a > 0 && b > 0
    ensures x / a / b == x / (a * b)
  {
    var q1, r1 := x / a, x % a;
    var q2, r2 := q1 / b, q1 % b;
    assert x == q2 * (a * b) + (r2 * a + r1) by {
      assert x == q1 * a + r1;
      assert q1 == q2 * b + r2;
    }
    assert r2 * a + r1 < a * b by {
      MulMonotone(r2, b - 1, a);
      assert (b - 1) * a + a == a * b;
    }
    DivModUnique(x, a * b, q2, r2 * a + r1);
  }

  /** (x * m) / m recovers x, with no remainder. */
  lemma MulDivCancel(x: nat, m: nat)
    requires m > 0
    ensures (x * m) / m == x && (x * m) % m == 0
  {
    DivModUnique(x * m, m, x, 0);
  }

  // ----- big-endian digit sequences -----

  predicate AllBelow(ds: seq<nat>, base: nat)
  {
    forall i :: 0 <= i < |ds| ==> ds[i] < base
  }

  /** The value of a big-endian digit sequence. */
  function BeValue(ds: seq<nat>, base: nat): nat
  {
    if |ds| == 0 then 0 else BeValue(ds[..|ds| - 1], base) * base + ds[|ds| - 1]
  }

  function Zeros(n: nat): (z: seq<nat>)
    ensures |z| == n && forall i :: 0 <= i < n ==> z[i] == 0
  {
    seq(n, _ => 0)
  }

  lemma {:induction false} BeValueBound(ds: seq<nat>, base: nat)
    requires base > 0 && AllBelow(ds, base)
    ensures BeValue(ds, base) < Pow(base, |ds|)
  {
    if |ds| > 0 {
      var init := ds[..|ds| - 1];
      BeValueBound(init, base);
      var v := BeValue(init, base);
      assert v * base + ds[|ds| - 1] < (v + 1) * base by {
        assert (v + 1) * base == v * base + base;
      }
      MulMonotone(v + 1, Pow(base, |init|), base);
      assert Pow(base, |ds|) == base * Pow(base, |init|);
    }
  }

  lemma Regroup(a: int, p: int, v: int, b: int, d: int)
    ensures (a * p + v) * b + d == a * (b * p) + (v * b + d)
  {
  }

  lemma {:induction false} BeValueConcat(a: seq<nat>, b: seq<nat>, base: nat)
    ensures BeValue(a + b, base) == BeValue(a, base) * Pow(base, |b|) + BeValue(b, base)
    decreases |b|
  {
    if |b| == 0 {
      assert a + b == a;
    } else {
      var b' := b[..|b| - 1];
      assert (a + b)[..|a + b| - 1] == a + b';
      BeValueConcat(a, b', base);
      assert b == b' + [b[|b| - 1]];
      BeValueSnoc(b', b[|b| - 1], base);
      Regroup(BeValue(a, base), Pow(base, |b'|), BeValue(b', base), base, b[|b| - 1]);
    }
  }

  lemma {:induction false} BeValueZeros(n: nat, base: nat)
    ensures BeValue(Zeros(n), base) == 0
  {
    if n > 0 {
      assert Zeros(n)[..n - 1] == Zeros(n - 1);
      BeValueZeros(n - 1, base);
    }
  }

  lemma BeValueSnoc(ds: seq<nat>, d: nat, base: nat)
    ensures BeValue(ds + [d], base) == BeValue(ds, base) * base + d
  {
    assert (ds + [d])[..|ds|] == ds;
  }

  /** The k lowest digits of x in big-endian order. */
  function ToDigits(x: nat, k: nat, base: nat): (ds: seq<nat>)
    requires base > 0
    ensures |ds| == k && AllBelow(ds, base)
    decreases k
  {
    if k == 0 then [] else ToDigits(x / base, k - 1, base) + [x % base]
  }

  lemma ToDigitsValue(x: nat, k: nat, base: nat)
    requires base > 0 && x < Pow(base, k)
    ensures BeValue(ToDigits(x, k, base), base) == x
  {
    ToDigitsValueMod(x, k, base);
    DivModUnique(x, Pow(base, k), 0, x);
  }

  /** x < m * b implies x / b < m. */
  lemma QuotientBound(x: nat, b: nat, m: nat)
    requires b > 0 && x < b * m
    ensures x / b < m
  {
    if x / b >= m {
      MulMonotone(m, x / b, b);
    }
  }

  lemma {:induction false} ToDigitsOfValue(ds: seq<nat>, base: nat)
    requires base > 0 && AllBelow(ds, base)
    ensures ToDigits(BeValue(ds, base), |ds|, base) == ds
  {
    if |ds| > 0 {
      var init := ds[..|ds| - 1];
      var v := BeValue(ds, base);
      DivModUnique(v, base, BeValue(init, base), ds[|ds| - 1]);
      ToDigitsOfValue(init, base);
      assert ds == init + [ds[|ds| - 1]];
    }
  }

  lemma {:induction false} ToDigitsAt(x: nat, k: nat, base: nat, j: nat)
    requires base > 0 && j < k
    ensures Pow(base, k - 1 - j) > 0
    ensures ToDigits(x, k, base)[j] == (x / Pow(base, k - 1 - j)) % base
    decreases k
  {
    PowPositive(base, k - 1 - j);
    if j < k - 1 {
      ToDigitsAt(x / base, k - 1, base, j);
      PowPositive(base, k - 2 - j);
      DivDiv(x, base, Pow(base, k - 2 - j));
      assert base * Pow(base, k - 2 - j) == Pow(base, k - 1 - j);
    }
  }

  /** A digit sequence placed in the most significant end of an L-digit number. */
  function LeftAligned(ds: seq<nat>, base: nat, width: nat): nat
    requires |ds| <= width
  {
    BeValue(ds, base) * Pow(base, width - |ds|)
  }

  lemma LeftAlignedIsPadded(ds: seq<nat>, base: nat, width: nat)
    requires |ds| <= width
    ensures LeftAligned(ds, base, width) == BeValue(ds + Zeros(width - |ds|), base)
  {
    BeValueConcat(ds, Zeros(width - |ds|), base);
    BeValueZeros(width - |ds|, base);
  }

  /** Digit j (counted from the most significant end) of a left-aligned number is ds[j]. */
  lemma LeftAlignedDigit(ds: seq<nat>, base: nat, width: nat, j: nat)
    requires base > 0 && AllBelow(ds, base) && j < |ds| <= width
    ensures Pow(base, width - 1 - j) > 0
    ensures (LeftAligned(ds, base, width) / Pow(base, width - 1 - j)) % base == ds[j]
  {
    var padded := ds + Zeros(width - |ds|);
    LeftAlignedIsPadded(ds, base, width);
    ToDigitsOfValue(padded, base);
    ToDigitsAt(BeValue(padded, base), width, base, j);
  }

  /** Appending one digit to a left-aligned number adds it at the next lower position. */
  lemma LeftAlignedSnoc(ds: seq<nat>, d: nat, base: nat, width: nat)
    requires |ds| < width
    ensures LeftAligned(ds + [d], base, width)
         == LeftAligned(ds, base, width) + d * Pow(base, width - 1 - |ds|)
  {
    BeValueSnoc(ds, d, base);
    var p := Pow(base, width - 1 - |ds|);
    assert |ds + [d]| == |ds| + 1 && width - |ds + [d]| == width - 1 - |ds|;
    assert Pow(base, width - |ds|) == base * p;
    Regroup(BeValue(ds, base), base, d, p, 0);
  }

  lemma LeftAlignedBound(ds: seq<nat>, base: nat, width: nat)
    requires base > 0 && AllBelow(ds, base) && |ds| <= width
    ensures LeftAligned(ds, base, width) < Pow(base, width)
  {
    LeftAlignedIsPadded(ds, base, width);
    var padded := ds + Zeros(width - |ds|);
    assert AllBelow(padded, base);
    BeValueBound(padded, base);
  }

  /** Appending a digit group to a left-aligned number adds it just below the existing digits. */
  lemma LeftAlignedConcat(ds: seq<nat>, c: seq<nat>, base: nat, width: nat)
    requires |ds| + |c| <= width
    ensures LeftAligned(ds + c, base, width)
         == LeftAligned(ds, base, width) + BeValue(c, base) * Pow(base, width - |ds| - |c|)
  {
    var rest := width - |ds| - |c|;
    assert |ds + c| == |ds| + |c| && width - |ds + c| == rest && width - |ds| == rest + |c|;
    BeValueConcat(ds, c, base);
    PowAdd(base, rest, |c|);
    Regroup(BeValue(ds, base), Pow(base, |c|), BeValue(c, base), Pow(base, rest), 0);
  }

  /**
   * Keeping only the w most significant of x's width digits and left-aligning
   * them clears the low width - w digits of x.
   */
  lemma LeftAlignedPrefix(x: nat, width: nat, w: nat, base: nat)
    requires base > 0 && w <= width && x < Pow(base, width)
    ensures Pow(base, width - w) > 0
    ensures LeftAligned(ToDigits(x, width, base)[..w], base, width) == x - x % Pow(base, width - w)
  {
    var ds := ToDigits(x, width, base);
    var pre, post := ds[..w], ds[w..];
    assert ds == pre + post;
    PowPositive(base, width - w);
    ToDigitsValue(x, width, base);
    BeValueConcat(pre, post, base);
    assert AllBelow(post, base);
    BeValueBound(post, base);
    DivModUnique(x, Pow(base, width - w), BeValue(pre, base), BeValue(post, base));
  }

  /**
   * Left-aligning the w most significant of x's width digits gives x back
   * exactly when x has at most width digits and its low width - w digits are zero.
   */
  lemma PrefixReconstructs(x: nat, width: nat, w: nat, base: nat)
    requires base > 0 && w <= width
    ensures Pow(base, width - w) > 0
    ensures LeftAligned(ToDigits(x, width, base)[..w], base, width) == x
        <==> x < Pow(base, width) && x % Pow(base, width - w) == 0
  {
    var m := Pow(base, width);
    PowPositive(base, width);
    PowPositive(base, width - w);
    var y := x % m;
    SameLowDigits(x, width, base);
    LeftAlignedPrefix(y, width, w, base);
    var acc := LeftAligned(ToDigits(x, width, base)[..w], base, width);
    assert acc == y - y % Pow(base, width - w);
    ModBelow(x, m);
    if x < m {
      DivModUnique(x, m, 0, x);
    }
  }

  /** x and x mod base^width have the same width low digits. */
  lemma SameLowDigits(x: nat, width: nat, base: nat)
    requires base > 0
    ensures Pow(base, width) > 0
    ensures ToDigits(x % Pow(base, width), width, base) == ToDigits(x, width, base)
  {
    ToDigitsValueMod(x, width, base);
    ToDigitsOfValue(ToDigits(x, width, base), base);
  }

  lemma ModBelow(x: nat, m: nat)
    requires m > 0
    ensures x % m <= x && x % m < m
  {
    assert x == (x / m) * m + x % m;
    MulMonotone(0, x / m, m);
  }

  /** The low a + b digits of x are its digits from position b upwards followed by its low b digits. */
  lemma {:induction false} ToDigitsSplit(x: nat, a: nat, b: nat, base: nat)
    requires base > 0
    ensures Pow(base, b) > 0
    ensures ToDigits(x, a + b, base) == ToDigits(x / Pow(base, b), a, base) + ToDigits(x, b, base)
    decreases b
  {
    PowPositive(base, b);
    if b > 0 {
      ToDigitsSplit(x / base, a, b - 1, base);
      PowPositive(base, b - 1);
      DivDiv(x, base, Pow(base, b - 1));
      assert ToDigits(x, a + b, base) == ToDigits(x / base, a + (b - 1), base) + [x % base];
    }
  }

  lemma Pow2Bytes(k: nat)
    ensures Pow(2, 8 * k) == Pow(256, k)
  {
    PowMul(2, 8, k);
    assert Pow(2, 8) == 256 by {
      assert Pow(2, 4) == 16;
    }
  }

  /** y mod (base * m) in terms of y's last digit and the rest. */
  lemma ModMul(y: nat, base: nat, m: nat)
    requires base > 0 && m > 0
    ensures y % (base * m) == ((y / base) % m) * base + y % base
  {
    var q, r := y / base, y % base;
    var q2, r2 := q / m, q % m;
    assert y == q2 * (base * m) + (r2 * base + r) by {
      assert y == q * base + r;
      assert q == q2 * m + r2;
    }
    assert r2 * base + r < base * m by {
      MulMonotone(r2, m - 1, base);
    }
    DivModUnique(y, base * m, q2, r2 * base + r);
  }

  /** The low k digits of y spell y mod base^k. */
  lemma {:induction false} ToDigitsValueMod(y: nat, k: nat, base: nat)
    requires base > 0
    ensures Pow(base, k) > 0
    ensures BeValue(ToDigits(y, k, base), base) == y % Pow(base, k)
    decreases k
  {
    PowPositive(base, k);
    if k > 0 {
      PowPositive(base, k - 1);
      ToDigitsValueMod(y / base, k - 1, base);
      BeValueSnoc(ToDigits(y / base, k - 1, base), y % base, base);
      ModMul(y, base, Pow(base, k - 1));
    }
  }

  /**
   * The digits at positions lo .. hi (most significant first) of the width
   * low digits of x, read as a number, are (x / base^(width - hi)) mod base^(hi - lo).
   */
  lemma DigitRange(x: nat, width: nat, lo: nat, hi: nat, base: nat)
    requires base > 0 && lo <= hi <= width
    ensures Pow(base, width - hi) > 0 && Pow(base, hi - lo) > 0
    ensures (x / Pow(base, width - hi)) % Pow(base, hi - lo) == BeValue(ToDigits(x, width, base)[lo..hi], base)
  {
    PowPositive(base, width - hi);
    PowPositive(base, hi - lo);
    var y := x / Pow(base, width - hi);
    var ds := ToDigits(x, width, base);
    assert ds[..hi] == ToDigits(y, hi, base) by {
      HighDigits(x, width, hi, base);
    }
    assert ds[lo..hi] == ds[..hi][lo..];
    assert ToDigits(y, hi, base)[lo..] == ToDigits(y, hi - lo, base) by {
      LowDigits(y, hi, lo, base);
    }
    ToDigitsValueMod(y, hi - lo, base);
  }

  /** The top hi of the width low digits of x are the hi low digits of x / base^(width - hi). */
  lemma HighDigits(x: nat, width: nat, hi: nat, base: nat)
    requires base > 0 && hi <= width
    ensures Pow(base, width - hi) > 0
    ensures ToDigits(x, width, base)[..hi] == ToDigits(x / Pow(base, width - hi), hi, base)
  {
    PowPositive(base, width - hi);
    var top := ToDigits(x / Pow(base, width - hi), hi, base);
    var bottom := ToDigits(x, width - hi, base);
    assert ToDigits(x, width, base) == top + bottom by {
      ToDigitsSplit(x, hi, width - hi, base);
      assert hi + (width - hi) == width;
    }
    assert (top + bottom)[..hi] == top;
  }

  /** Dropping the top lo of the hi low digits of y leaves its hi - lo low digits. */
  lemma LowDigits(y: nat, hi: nat, lo: nat, base: nat)
    requires base > 0 && lo <= hi
    ensures ToDigits(y, hi, base)[lo..] == ToDigits(y, hi - lo, base)
  {
    PowPositive(base, hi - lo);
    var top := ToDigits(y / Pow(base, hi - lo), lo, base);
    var bottom := ToDigits(y, hi - lo, base);
    assert ToDigits(y, hi, base) == top + bottom by {
      ToDigitsSplit(y, lo, hi - lo, base);
      assert lo + (hi - lo) == hi;
    }
    assert (top + bottom)[lo..] == bottom;
  }
}
