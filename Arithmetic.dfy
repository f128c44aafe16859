/** Non-linear integer facts the rest of the model relies on. */
module Arithmetic {

  function Abs(a: int): nat { if a < 0 then -a else a }

  lemma MulBounded(x: nat, y: nat, m: nat)
    requires y <= m
    ensures x * y <= x * m
  {
  }

  /** A multiple `y * k` of a positive `y` that stays below `y` has `k <= 0`. */
  lemma BelowFactor(y: int, k: int)
    requires y > 0 && y * k < y
    ensures k <= 0
  {
  }

  lemma DivNonNegative(x: int, y: int)
    requires x >= 0 && y > 0
    ensures x / y >= 0
  {
    var q, r := x / y, x % y;
    assert x == y * q + r;
    assert y * q + y > 0;
  }

  lemma DivMonotone(x: int, z: int, y: int)
    requires 0 <= x <= z && y > 0
    ensures x / y <= z / y
  {
    var q, r := x / y, x % y;
    var q', r' := z / y, z % y;
    assert x == y * q + r;
    assert z == y * q' + r';
    assert y * (q - q') == y * q - y * q';
    assert y * (q - q') < y;
    BelowFactor(y, q - q');
  }

  /** Quotient and remainder are the unique pair with n == d * q + r and 0 <= r < d. */
  lemma DivModUnique(n: int, d: int, q: int, r: int)
    requires d > 0 && 0 <= r < d && n == d * q + r
    ensures n / d == q && n % d == r
  {
    var q', r' := n / d, n % d;
    assert n == d * q' + r';
    assert d * (q - q') == r' - r;
    assert d * (q' - q) == r - r';
    BelowFactor(d, q - q');
    BelowFactor(d, q' - q);
  }

  lemma MulDivCancel(x: int, y: int)
    requires x >= 0 && y > 0
    ensures (y * x) / y == x
  {
    var q, r := (y * x) / y, (y * x) % y;
    assert y * x == y * q + r;
    assert y * (x - q) == y * x - y * q;
    assert y * (x - q) == r;
    BelowFactor(y, x - q);
    BelowFactor(y, q - x);
  }

  /**
   * Rust's `/` on signed integers: the quotient truncated toward zero.
   * Dafny's own `/` is Euclidean, which differs on negative operands.
   */
  function TruncDiv(a: int, b: int): (q: int)
    requires b != 0
    ensures Abs(q) == Abs(a) / Abs(b)
    ensures q > 0 ==> (a > 0) == (b > 0)
    ensures q < 0 ==> (a > 0) != (b > 0)
  {
    DivNonNegative(Abs(a), Abs(b));
    var n := Abs(a) / Abs(b);
    if (a >= 0) == (b > 0) then n else -n
  }

  lemma AbsMul(a: int, b: int)
    ensures Abs(a * b) == Abs(a) * Abs(b)
    ensures a * b > 0 <==> (a != 0 && b != 0 && (a > 0) == (b > 0))
    ensures a * b < 0 <==> (a != 0 && b != 0 && (a > 0) != (b > 0))
  {
    if a < 0 && b < 0 {
      assert a * b == (-a) * (-b);
    } else if a < 0 {
      assert a * b == -((-a) * b);
    } else if b < 0 {
      assert a * b == -(a * (-b));
    }
  }

  /**
   * Scaling `d` by a fraction `t / den` in [0, 1] and truncating keeps the
   * result between 0 and `d`.
   */
  lemma TruncDivFraction(t: int, den: int, d: int)
    requires den != 0
    requires Abs(t) <= Abs(den)
    requires t == 0 || ((t > 0) == (den > 0))
    ensures var q := TruncDiv(t * d, den); (d >= 0 ==> 0 <= q <= d) && (d < 0 ==> d <= q <= 0)
  {
    var q := TruncDiv(t * d, den);
    var at, ad, an := Abs(t), Abs(d), Abs(den);
    AbsMul(t, d);
    MulBounded(ad, at, an);
    assert ad * at == at * ad && ad * an == an * ad;
    DivMonotone(at * ad, an * ad, an);
    MulDivCancel(ad, an);
    assert Abs(q) <= ad;
  }
}
