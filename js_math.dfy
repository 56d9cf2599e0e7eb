/**
  The few JavaScript number operations the traffic step uses, on real numbers.
  JavaScript numbers are IEEE-754 doubles; here they are ideal reals, so the
  operations below are exact where the originals round.
 */
module JsMath {

  /** `Math.max(a, b)` for ordinary (non-NaN) numbers. */
  function Max(a: real, b: real): (r: real)
    ensures r >= a && r >= b
    ensures r == a || r == b
  {
    if a >= b then a else b
  }

  /** `Math.min(a, b)` for ordinary (non-NaN) numbers. */
  function Min(a: real, b: real): (r: real)
    ensures r <= a && r <= b
    ensures r == a || r == b
  {
    if a <= b then a else b
  }

  /** Rounds toward zero: the integer part that JavaScript's `%` keeps in its quotient. */
  function Trunc(q: real): (t: int)
    ensures q >= 0.0 ==> 0 <= t && t as real <= q < t as real + 1.0
    ensures q < 0.0 ==> t <= 0 && t as real - 1.0 < q <= t as real
  {
    if q >= 0.0 then q.Floor else -((-q).Floor)
  }

  /**
    JavaScript's `x % y`: the remainder of a division whose quotient is
    truncated toward zero, so the result takes the sign of the dividend
    (`-7 % 5 == -2`). `x % 0` is NaN in JavaScript, which a real cannot be.
   */
  function Remainder(x: real, y: real): (r: real)
    requires y != 0.0
    ensures 0.0 <= x && 0.0 < y ==> 0.0 <= r < y
    ensures 0.0 <= x < y ==> r == x
    ensures 0.0 < y <= x < y + y ==> r == x - y
    ensures x < 0.0 && 0.0 < y ==> -y < r <= 0.0
  {
    var t := Trunc(x / y);
    if 0.0 < y then
      RemainderBounds(x, y, t);
      x - y * t as real
    else
      x - y * t as real
  }

  /** `k` whole times `y`. */
  function Multiple(y: real, k: int): real {
    y * k as real
  }

  /** `x % y` differs from `x` by a whole multiple of `y`. */
  lemma RemainderCongruent(x: real, y: real)
    requires y != 0.0
    ensures exists k: int :: x - Remainder(x, y) == Multiple(y, k)
  {
    assert x - Remainder(x, y) == Multiple(y, Trunc(x / y));
  }

  /**
    For a non-negative dividend and a positive divisor, `x % y` is the only
    number in [0, y) that differs from `x` by a whole multiple of `y`.
   */
  lemma RemainderUnique(x: real, y: real, r: real, k: int)
    requires 0.0 <= x && 0.0 < y && 0.0 <= r < y
    requires x - r == Multiple(y, k)
    ensures r == Remainder(x, y)
  {
    var t := Trunc(x / y);
    var r0 := Remainder(x, y);
    assert x - r0 == Multiple(y, t);
    assert r - r0 == Multiple(y, t - k);
    SmallMultiple(y, t - k);
  }

  /** The only whole multiple of `y` strictly between `-y` and `y` is 0. */
  lemma SmallMultiple(y: real, m: int)
    requires 0.0 < y && -y < Multiple(y, m) < y
    ensures m == 0
  {
    if m >= 1 {
      ScaleLe(y, 1.0, m as real);
      assert false;
    } else if m <= -1 {
      ScaleLe(y, m as real, -1.0);
      assert false;
    }
  }

  /** The facts `Remainder` promises for a positive divisor, from the bounds on its quotient. */
  lemma RemainderBounds(x: real, y: real, t: int)
    requires 0.0 < y && t == Trunc(x / y)
    ensures 0.0 <= x ==> 0.0 <= x - y * t as real < y
    ensures 0.0 <= x < y ==> t == 0
    ensures 0.0 < y <= x < y + y ==> t == 1
    ensures x < 0.0 ==> -y < x - y * t as real <= 0.0
  {
    var tr := t as real;
    QuotientScale(x, y, tr);
    QuotientScale(x, y, tr + 1.0);
    QuotientScale(x, y, tr - 1.0);
    assert y * (tr + 1.0) == y * tr + y;
    assert y * (tr - 1.0) == y * tr - y;
    QuotientScale(x, y, 0.0);
    QuotientScale(x, y, 1.0);
    QuotientScale(x, y, 2.0);
  }

  /** Comparing a number with the quotient `x / y` is comparing its multiple by `y` with `x`. */
  lemma QuotientScale(x: real, y: real, a: real)
    requires 0.0 < y
    ensures a <= x / y <==> y * a <= x
    ensures a < x / y <==> y * a < x
  {
    var q := x / y;
    assert y * q == x;
    assert y * q - y * a == y * (q - a);
  }

  /** Multiplying by a positive number keeps an order. */
  lemma ScaleLe(y: real, a: real, b: real)
    requires 0.0 < y && a <= b
    ensures y * a <= y * b
  {
    assert y * b - y * a == y * (b - a);
  }

  lemma ScaleLt(y: real, a: real, b: real)
    requires 0.0 < y && a < b
    ensures y * a < y * b
  {
    assert y * b - y * a == y * (b - a);
  }

  /** JavaScript's `Math.ceil(x)`: the least integer not below `x`. */
  function Ceil(x: real): (c: int)
    ensures x <= c as real < x + 1.0
  {
    -((-x).Floor)
  }
}
