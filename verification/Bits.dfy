/** Natural numbers as bit patterns: powers of two, the bitwise operators and aligned blocks. */
module Bits {
  import opened Arithmetic

  function Pow2(n: nat): (r: nat)
    ensures r >= 1
  {
    if n == 0 then 1 else 2 * Pow2(n - 1)
  }

  function And(a: nat, b: nat): (r: nat)
    ensures r <= a && r <= b
  {
    if a == 0 || b == 0 then 0 else (if a % 2 == 1 && b % 2 == 1 then 1 else 0) + 2 * And(a / 2, b / 2)
  }

  function Or(a: nat, b: nat): nat {
    if a == 0 then b else if b == 0 then a
    else (if a % 2 == 1 || b % 2 == 1 then 1 else 0) + 2 * Or(a / 2, b / 2)
  }

  function Xor(a: nat, b: nat): nat {
    if a == 0 then b else if b == 0 then a
    else (if a % 2 != b % 2 then 1 else 0) + 2 * Xor(a / 2, b / 2)
  }

  function Quotient(x: nat, d: nat): nat
    requires d > 0
  {
    MultipleBounds(x / d, d);
    x / d
  }

  /** The largest multiple of d that does not exceed v. */
  function Floor(v: nat, d: nat): (r: nat)
    requires d > 0
    ensures v - d < r <= v
  {
    v - v % d
  }

  /** The start of the block of 2^k addresses that holds `v`. */
  function AlignDown(v: nat, k: nat): (r: nat)
    ensures r <= v
  {
    Floor(v, Pow2(k))
  }

  lemma {:induction false} Pow2Add(m: nat, n: nat)
    ensures Pow2(m + n) == Pow2(m) * Pow2(n)
  {
    if m > 0 {
      Pow2Add(m - 1, n);
      assert Pow2(m + n) == 2 * Pow2(m - 1 + n);
    }
  }

  lemma {:induction false} Pow2Monotone(m: nat, n: nat)
    requires m <= n
    ensures Pow2(m) <= Pow2(n)
  {
    if m < n {
      Pow2Monotone(m, n - 1);
    }
  }

  /** The low bits of x, one bit at a time. */
  lemma LowBits(x: nat, p: nat)
    requires p > 0
    ensures x % (2 * p) == x % 2 + 2 * ((x / 2) % p)
    ensures Floor(x, 2 * p) == 2 * Floor(x / 2, p)
  {
    var q, r := (x / 2) / p, (x / 2) % p;
    assert x / 2 == q * p + r;
    assert x == q * (2 * p) + (x % 2 + 2 * r);
    DivModUnique(x, 2 * p, q, x % 2 + 2 * r);
  }

  function LowPart(x: nat, k: nat): nat {
    if k == 0 then 0 else x % 2 + 2 * LowPart(x / 2, k - 1)
  }

  lemma {:induction false} LowPartIsMod(x: nat, k: nat)
    ensures LowPart(x, k) == x % Pow2(k)
    decreases k
  {
    if k == 0 {
      DivModUnique(x, 1, x, 0);
    } else {
      LowPartIsMod(x / 2, k - 1);
      LowBits(x, Pow2(k - 1));
    }
  }

  lemma AndEven(v: nat, p: nat)
    ensures And(v, 2 * p) == 2 * And(v / 2, p)
  {
  }

  lemma OddHalf(p: nat)
    requires p > 0
    ensures (2 * p - 1) / 2 == p - 1 && (2 * p - 1) % 2 == 1
  {
  }

  lemma {:induction false} AndLowMask(v: nat, k: nat)
    ensures And(v, Pow2(k) - 1) == LowPart(v, k)
    decreases k
  {
    if k > 0 {
      AndLowMask(v / 2, k - 1);
      OddHalf(Pow2(k - 1));
    }
  }

  lemma {:induction false} LowPartOfSmall(v: nat, w: nat)
    requires v < Pow2(w)
    ensures LowPart(v, w) == v
    decreases w
  {
    if w > 0 {
      LowPartOfSmall(v / 2, w - 1);
    }
  }

  /** A mask of w bits whose low k bits are clear keeps exactly the block start. */
  lemma {:induction false} AndHighMask(v: nat, w: nat, k: nat)
    requires v < Pow2(w) && k <= w
    ensures Pow2(k) <= Pow2(w)
    ensures And(v, Pow2(w) - Pow2(k)) == v - LowPart(v, k)
    decreases w
  {
    hide And;
    Pow2Monotone(k, w);
    if k == 0 {
      AndLowMask(v, w);
      LowPartOfSmall(v, w);
    } else {
      AndHighMask(v / 2, w - 1, k - 1);
      AndEven(v, Pow2(w - 1) - Pow2(k - 1));
    }
  }

  /** Setting the k low bits of a block start gives the last address of the block. */
  lemma {:induction false} OrLowMask(n: nat, k: nat)
    requires LowPart(n, k) == 0
    ensures Or(n, Pow2(k) - 1) == n + Pow2(k) - 1
    decreases k
  {
    if k > 0 {
      OrLowMask(n / 2, k - 1);
      OddHalf(Pow2(k - 1));
    }
  }

  lemma {:induction false} XorMasks(w: nat, k: nat)
    requires k <= w
    ensures Pow2(k) <= Pow2(w)
    ensures Xor(Pow2(w) - 1, Pow2(k) - 1) == Pow2(w) - Pow2(k)
    decreases w
  {
    Pow2Monotone(k, w);
    if k > 0 {
      XorMasks(w - 1, k - 1);
      OddHalf(Pow2(w - 1));
      OddHalf(Pow2(k - 1));
    }
  }

  lemma FloorMultiple(v: nat, d: nat)
    requires d > 0
    ensures Floor(v, d) == (v / d) * d && Floor(v, d) % d == 0
  {
    DivModUnique((v / d) * d, d, v / d, 0);
  }

  lemma AlignDownAligned(v: nat, k: nat)
    ensures AlignDown(v, k) % Pow2(k) == 0
  {
    FloorMultiple(v, Pow2(k));
  }

  lemma SameFloor(v: nat, x: nat, d: nat)
    requires d > 0
    ensures Floor(x, d) == Floor(v, d) <==> Floor(v, d) <= x < Floor(v, d) + d
  {
    FloorMultiple(v, d);
    if Floor(v, d) <= x < Floor(v, d) + d {
      DivModUnique(x, d, v / d, x - Floor(v, d));
    }
  }

  /** A value lies in the block of `v` exactly when it has the same block start. */
  lemma SameBlock(v: nat, x: nat, k: nat)
    ensures AlignDown(x, k) == AlignDown(v, k) <==> AlignDown(v, k) <= x < AlignDown(v, k) + Pow2(k)
  {
    SameFloor(v, x, Pow2(k));
  }

  /** A block stays inside its space of 2^w addresses. */
  lemma BlockFits(v: nat, w: nat, k: nat)
    requires v < Pow2(w) && k <= w
    ensures AlignDown(v, k) + Pow2(k) <= Pow2(w)
  {
    Pow2Add(w - k, k);
    FloorFits(v, Pow2(k), Pow2(w - k));
  }

  lemma FloorFits(v: nat, d: nat, n: nat)
    requires d > 0 && v < n * d
    ensures Floor(v, d) + d <= n * d
  {
    var q := v / d;
    assert Floor(v, d) == q * d;
    assert (n - q) * d == n * d - q * d;
    MultipleBounds(n - q, d);
  }

  /** The coarser block start depends on the finer one only. */
  lemma Coarser(x: nat, j: nat, k: nat)
    requires j <= k
    ensures AlignDown(AlignDown(x, j), k) == AlignDown(x, k)
  {
    Pow2Add(k - j, j);
    FloorFloor(x, Pow2(j), Pow2(k - j));
  }

  lemma FloorFloor(x: nat, n: nat, p: nat)
    requires n > 0 && p * n > 0
    ensures Floor(Floor(x, n), p * n) == Floor(x, p * n)
  {
    var q, r := x / (p * n), x % (p * n);
    var a := Floor(r, n);
    assert x == (q * p) * n + r by {
      assert q * (p * n) == (q * p) * n;
    }
    assert Floor(x, n) == (q * p) * n + a by {
      assert r == (r / n) * n + r % n;
      assert (q * p) * n + (r / n) * n == (q * p + r / n) * n;
      DivModUnique(x, n, q * p + r / n, r % n);
    }
    assert q * (p * n) == (q * p) * n;
    DivModUnique(Floor(x, n), p * n, q, a);
  }

  /** Blocks of powers of two that share an address are nested (section 3.1 of RFC 4632). */
  lemma NestedOrDisjoint(v: nat, j: nat, u: nat, k: nat, x: nat)
    requires j <= k
    requires AlignDown(x, j) == AlignDown(v, j) && AlignDown(x, k) == AlignDown(u, k)
    ensures forall y: nat :: AlignDown(y, j) == AlignDown(v, j) ==> AlignDown(y, k) == AlignDown(u, k)
  {
    forall y: nat | AlignDown(y, j) == AlignDown(v, j)
      ensures AlignDown(y, k) == AlignDown(u, k)
    {
      Coarser(y, j, k);
      Coarser(x, j, k);
    }
  }
}
