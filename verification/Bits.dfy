/** Shifts and masks on natural numbers, by recursion on the number of bits. */
module Bits {
  import Arith

  function Pow2(k: nat): (p: nat)
    ensures p > 0
  {
    if k == 0 then 1 else 2 * Pow2(k - 1)
  }

  /** x >> k */
  function Shr(x: nat, k: nat): nat
    decreases k
  {
    if k == 0 then x else Shr(x / 2, k - 1)
  }

  /** x & (2^k - 1) */
  function Low(x: nat, k: nat): nat
    decreases k
  {
    if k == 0 then 0 else x % 2 + 2 * Low(x / 2, k - 1)
  }

  /** (x << k) | low, for low < 2^k */
  function Join(x: nat, low: nat, k: nat): nat
    decreases k
  {
    if k == 0 then x else low % 2 + 2 * Join(x, low / 2, k - 1)
  }

  /** x & m */
  function And(x: nat, m: nat): nat
    decreases m
  {
    if m == 0 then 0 else (if x % 2 == 1 && m % 2 == 1 then 1 else 0) + 2 * And(x / 2, m / 2)
  }

  lemma {:induction false} AndMask(x: nat, k: nat)
    ensures And(x, Pow2(k) - 1) == Low(x, k)
  {
    if k > 0 {
      AndMask(x / 2, k - 1);
      assert (Pow2(k) - 1) / 2 == Pow2(k - 1) - 1;
    }
  }

  lemma {:induction false} LowBelow(x: nat, k: nat)
    ensures Low(x, k) < Pow2(k)
  {
    if k > 0 {
      LowBelow(x / 2, k - 1);
    }
  }

  lemma {:induction false} ShrOfLow(x: nat, j: nat, k: nat)
    ensures Shr(Low(x, j + k), k) == Low(Shr(x, k), j)
    ensures Low(Low(x, j + k), k) == Low(x, k)
    decreases k
  {
    if k > 0 {
      ShrOfLow(x / 2, j, k - 1);
      assert Low(x, j + k) / 2 == Low(x / 2, j + (k - 1));
      assert Low(x, j + k) % 2 == x % 2;
    }
  }

  lemma {:induction false} ShrBelow(x: nat, j: nat, k: nat)
    requires x < Pow2(j + k)
    ensures Shr(x, k) < Pow2(j)
    decreases k
  {
    if k > 0 {
      ShrBelow(x / 2, j, k - 1);
    }
  }

  lemma {:induction false} JoinParts(x: nat, low: nat, k: nat)
    requires low < Pow2(k)
    ensures Shr(Join(x, low, k), k) == x && Low(Join(x, low, k), k) == low
    decreases k
  {
    if k > 0 {
      JoinParts(x, low / 2, k - 1);
      assert Join(x, low, k) / 2 == Join(x, low / 2, k - 1);
    }
  }

  lemma {:induction false} PartsJoin(x: nat, k: nat)
    ensures Join(Shr(x, k), Low(x, k), k) == x
    decreases k
  {
    if k > 0 {
      PartsJoin(x / 2, k - 1);
      assert Low(x, k) / 2 == Low(x / 2, k - 1);
    }
  }

  lemma {:induction false} JoinBelow(x: nat, low: nat, j: nat, k: nat)
    requires x < Pow2(j) && low < Pow2(k)
    ensures Join(x, low, k) < Pow2(j + k)
    decreases k
  {
    if k > 0 {
      JoinBelow(x, low / 2, j, k - 1);
    }
  }

  lemma {:induction false} Pow2Grows(j: nat, k: nat)
    requires j <= k
    ensures Pow2(j) <= Pow2(k)
  {
    if j < k {
      Pow2Grows(j, k - 1);
    }
  }

  lemma {:induction false} Pow2Adds(j: nat, k: nat)
    ensures Pow2(j + k) == Pow2(j) * Pow2(k)
  {
    if j > 0 {
      Pow2Adds(j - 1, k);
    }
  }

  lemma Pow2Table()
    ensures Pow2(0) == 1 && Pow2(1) == 2 && Pow2(2) == 4 && Pow2(3) == 8 && Pow2(4) == 0x10
    ensures Pow2(5) == 0x20 && Pow2(6) == 0x40 && Pow2(7) == 0x80 && Pow2(8) == 0x100
    ensures Pow2(9) == 0x200 && Pow2(10) == 0x400 && Pow2(11) == 0x800 && Pow2(12) == 0x1000
  {
    assert Pow2(4) == 0x10;
    assert Pow2(8) == 0x100;
    assert Pow2(12) == 0x1000;
  }

  lemma Pow2Of16()
    ensures Pow2(16) == 0x1_0000
  {
    Pow2Table();
    Pow2Adds(8, 8);
  }

  /** A number in terms of its quotient and remainder by 2^k, */
  lemma {:induction false} ShrLow(l: nat, k: nat)
    ensures l == Shr(l, k) * Pow2(k) + Low(l, k)
    decreases k
  {
    if k > 0 {
      ShrLow(l / 2, k - 1);
      SplitTwice(l, Shr(l, k), Pow2(k - 1), Low(l / 2, k - 1));
    }
  }

  lemma SplitTwice(l: nat, s: nat, p: nat, low: nat)
    requires l / 2 == s * p + low
    ensures l == s * (2 * p) + (l % 2 + 2 * low)
  {
    assert s * (2 * p) == 2 * (s * p);
  }

  /** which are what shift and mask give. */
  lemma {:induction false} SplitIsDivision(l: nat, k: nat)
    ensures Shr(l, k) == l / Pow2(k) && Low(l, k) == l % Pow2(k)
  {
    ShrLow(l, k);
    LowBelow(l, k);
    Arith.DivMod(l, Pow2(k), Shr(l, k), Low(l, k));
  }
}
