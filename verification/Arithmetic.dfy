/** Facts about products and remainders with a variable divisor. */
module Arithmetic {

  lemma MulSign(g: int, d: int)
    requires g > 0
    ensures d >= 1 ==> g * d >= g
    ensures d <= -1 ==> g * d <= -g
  {
  }

  lemma MulMonotone(a: nat, b: nat, q: nat)
    requires a <= b
    ensures a * q <= b * q
  {
  }

  /** A multiple leaves no remainder. */
  lemma MulDiv(g: int, k: int)
    requires g > 0
    ensures (g * k) / g == k && (g * k) % g == 0
  {
    var q, r := (g * k) / g, (g * k) % g;
    assert g * k == g * q + r;
    assert g * (k - q) == g * k - g * q;
    MulSign(g, k - q);
  }

  /** Two multiples are equal or at least the divisor apart. */
  lemma MultiplesApart(g: int, k: int, t: int)
    requires g > 0 && t % g == 0 && g * k < t
    ensures g * (k + 1) <= t
  {
    var j := t / g;
    assert t == g * j;
    assert g * (j - k) == g * j - g * k;
    MulSign(g, j - k);
    MulSign(g, j - k - 1);
    assert g * (j - k - 1) == g * j - g * (k + 1);
  }

  lemma Remainder(g: int, k: int, r: int)
    requires 0 <= r < g
    ensures (g * k + r) % g == r
  {
    var q, s := (g * k + r) / g, (g * k + r) % g;
    assert g * k + r == g * q + s;
    assert g * (k - q) == g * k - g * q;
    MulSign(g, k - q);
  }

  lemma NextRemainder(x: int, g: int)
    requires g >= 1
    ensures (x + 1) % g == if x % g + 1 == g then 0 else x % g + 1
  {
    var q, r := x / g, x % g;
    assert x == g * q + r;
    if r + 1 == g {
      assert x + 1 == g * (q + 1);
      MulDiv(g, q + 1);
    } else {
      Remainder(g, q, r + 1);
    }
  }
}
