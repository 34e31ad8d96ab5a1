/** Division facts the solver does not find by itself. */
module Arith {

  lemma DivMod(x: int, m: int, q: int, r: int)
    requires 0 <= r < m && x == q * m + r
    ensures x / m == q && x % m == r
  {
    var d := x / m - q;
    assert d * m == r - x % m;
    assert -m < d * m < m;
    assert (d >= 1 ==> d * m >= m) && (d <= -1 ==> d * m <= -m);
  }

  lemma DivBelow(x: nat, m: nat, w: nat)
    requires m > 0 && x < w * m
    ensures x / m < w
  {
    var q := x / m;
    assert q * m <= x;
    assert q >= w ==> q * m >= w * m;
  }

  lemma ModSucc(x: nat, m: nat)
    requires m > 0
    ensures (x + 1) % m == if x % m == m - 1 then 0 else x % m + 1
    ensures (x + 1) / m == if x % m == m - 1 then x / m + 1 else x / m
  {
    var q := x / m;
    assert x == q * m + x % m;
    if x % m == m - 1 {
      assert x + 1 == (q + 1) * m;
      DivMod(x + 1, m, q + 1, 0);
    } else {
      DivMod(x + 1, m, q, x % m + 1);
    }
  }

  lemma WrapSucc(x: nat, m: nat)
    requires m > 0
    ensures (x % m + 1) % m == (x + 1) % m
  {
    ModSucc(x, m);
    if x % m == m - 1 {
      DivMod(m, m, 1, 0);
    } else {
      DivMod(x % m + 1, m, 0, x % m + 1);
    }
  }

  lemma ModShift(x: int, q: int, m: int)
    requires m > 0
    ensures (x - q * m) % m == x % m
  {
    var d := x / m;
    assert x == d * m + x % m;
    MulAdd(d, q, m);
    DivMod(x - q * m, m, d - q, x % m);
  }

  lemma MulSucc(n: int, m: int)
    ensures (n + 1) * m == n * m + m
  {
  }

  lemma MulMonotone(a: int, b: int, m: nat)
    requires a <= b
    ensures a * m <= b * m
  {
  }

  lemma MulAdd(a: int, b: int, m: int)
    ensures (a + b) * m == a * m + b * m && (a - b) * m == a * m - b * m
  {
  }
}
