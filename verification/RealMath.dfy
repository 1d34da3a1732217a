/** Order and product facts about the reals. */
module RealMath {
  function Abs(x: real): real { if x < 0.0 then -x else x }
  function Min(x: real, y: real): real { if y < x then y else x }
  function Max(x: real, y: real): real { if y > x then y else x }

  lemma MulMono(k: real, x: real, y: real)
    requires k >= 0.0 && x <= y
    ensures k * x <= k * y
  {
  }

  lemma ProductBound(r: real, d: real, m: real, hi: real)
    requires 0.0 <= r <= d && 0.0 <= m <= hi
    ensures 0.0 <= r * m <= d * hi
  {
    MulMono(m, r, d);
    MulMono(d, m, hi);
  }

  /** `v` is the product of `r`, at most `d` in size, and `m`, between zero and `hi`. */
  lemma AbsProductBound(v: real, r: real, d: real, m: real, hi: real)
    requires v == r * m && Abs(r) <= d && 0.0 <= m <= hi
    ensures Abs(v) <= d * hi
  {
    if r < 0.0 {
      ProductBound(-r, d, m, hi);
      assert (-r) * m == -(r * m);
    } else {
      ProductBound(r, d, m, hi);
    }
  }

  /** A weighted average lies between any bounds of its two terms. */
  lemma AverageBetween(a: real, x: real, b: real, y: real, lo: real, hi: real)
    requires a > 0.0 && b > 0.0 && lo <= x <= hi && lo <= y <= hi
    ensures lo <= (a * x + b * y) / (a + b) <= hi
  {
    var n, d := a * x + b * y, a + b;
    assert n / d * d == n;
    AverageAbove(a, x, b, y, lo, n / d);
    assert -(n / d) * d == a * -x + b * -y;
    AverageAbove(a, -x, b, -y, -hi, -(n / d));
  }

  lemma AverageAbove(a: real, x: real, b: real, y: real, lo: real, r: real)
    requires a > 0.0 && b > 0.0 && lo <= x && lo <= y
    requires r * (a + b) == a * x + b * y
    ensures lo <= r
  {
    var u, v, t := x - lo, y - lo, r - lo;
    assert t * (a + b) == a * u + b * v;
    assert a * u >= 0.0 && b * v >= 0.0;
    assert t < 0.0 ==> t * (a + b) < 0.0;
  }

  /** Adding `b` at `y` to `a` at `x` keeps the total value, on the same side of zero. */
  lemma WeightedAverage(s: real, avg: real, q: real, m: real)
    requires (s > 0.0 && q > 0.0) || (s < 0.0 && q < 0.0)
    ensures (s + q) * ((Abs(s) * avg + Abs(q) * m) / Abs(s + q)) == s * avg + q * m
  {
    var n, d := Abs(s) * avg + Abs(q) * m, Abs(s + q);
    assert n / d * d == n;
  }

  lemma SharesAddUp(x: real, y: real, part: real, whole: real)
    requires whole > 0.0 && x * whole == part && y * whole == whole - part
    ensures x + y == 1.0
  {
    var t := x + y - 1.0;
    assert t * whole == 0.0;
  }

  /** Splitting `fee` in proportion: the shares of `part` and of the rest add up to it. */
  lemma Share(fee: real, part: real, whole: real)
    requires whole > 0.0 && 0.0 <= part <= whole
    ensures fee - fee * (part / whole) == fee * ((whole - part) / whole)
    ensures part == whole ==> fee * (part / whole) == fee
    ensures part < whole ==> (fee * ((whole - part) / whole) < 0.0 <==> fee < 0.0)
    ensures fee * (part / whole) * whole == fee * part
  {
    var x, y := part / whole, (whole - part) / whole;
    assert x * whole == part && y * whole == whole - part;
    SharesAddUp(x, y, part, whole);
    assert fee * x + fee * y == fee * (x + y);
    assert fee * x * whole == fee * (x * whole);
    if part < whole {
      assert y > 0.0;
      assert fee < 0.0 ==> fee * y < 0.0;
      assert fee >= 0.0 ==> fee * y >= 0.0;
    }
  }

  lemma TimesFlag(k: real, flag: real)
    ensures flag == 0.0 ==> k * flag == 0.0
    ensures flag == 1.0 ==> k * flag == k
  {
  }

  /** Multiplying out is left to this predicate, so that sums are matched by name before products are. */
  ghost predicate IsLinear(v: real, k: real, f: real, c: real, q: real) { v == k * (f - c * q) }

  lemma LinearStep(v: real, v': real, k: real, f: real, f': real, c: real, q: real, q': real)
    requires IsLinear(v, k, f, c, q) && IsLinear(v', k, f', c, q')
    ensures IsLinear(v + v', k, f + f', c, q + q')
  {
    assert c * (q + q') == c * q + c * q';
    assert k * ((f - c * q) + (f' - c * q')) == k * (f - c * q) + k * (f' - c * q');
  }
}
