/**
 Bitwise operations on non-negative integers, as far as the ring buffer uses them: `|`, `>>`
 and `&` with a mask, and the bit-smearing round-up to a power of two.
 */
module Bits {
  import opened Arithmetic

  function Pow2(k: nat): (r: nat)
    ensures r > 0
  {
    if k == 0 then 1 else 2 * Pow2(k - 1)
  }

  function Or(a: nat, b: nat): nat
  {
    if a == 0 then b else (if a % 2 == 1 || b % 2 == 1 then 1 else 0) + 2 * Or(a / 2, b / 2)
  }

  function And(a: nat, b: nat): nat
  {
    if a == 0 then 0 else (if a % 2 == 1 && b % 2 == 1 then 1 else 0) + 2 * And(a / 2, b / 2)
  }

  /** a >> k. */
  function Shr(a: nat, k: nat): nat
  {
    Quo(a, Pow2(k))
  }

  lemma {:induction false} PowAdd(a: nat, b: nat)
    ensures Pow2(a + b) == Pow2(a) * Pow2(b)
  {
    if a == 0 {
    } else {
      PowAdd(a - 1, b);
      assert Pow2(a + b) == 2 * Pow2(a - 1 + b);
    }
  }

  lemma {:induction false} PowMonotone(a: nat, b: nat)
    requires a <= b
    ensures Pow2(a) <= Pow2(b)
  {
    if a == b {
    } else {
      PowMonotone(a, b - 1);
    }
  }

  /** Masking with 2^k - 1 is reduction modulo 2^k. */
  lemma {:induction false} MaskIsMod(a: nat, k: nat)
    ensures And(a, Pow2(k) - 1) == a % Pow2(k)
    decreases k, a
  {
    var p := Pow2(k);
    if a == 0 {
    } else if k == 0 {
      MaskIsMod(a / 2, 0);
    } else {
      MaskIsMod(a / 2, k - 1);
      var h := Pow2(k - 1);
      assert (p - 1) / 2 == h - 1 && (p - 1) % 2 == 1;
      assert And(a, p - 1) == a % 2 + 2 * ((a / 2) % h);
      ModSplit(a, 2, h);
    }
  }

  // ---------- Or ----------

  lemma {:induction false} OrBelow(a: nat, b: nat, k: nat)
    requires a < Pow2(k) && b < Pow2(k)
    ensures Or(a, b) < Pow2(k)
  {
    if a == 0 || k == 0 {
    } else {
      OrBelow(a / 2, b / 2, k - 1);
    }
  }

  lemma {:induction false} OrAtLeast(a: nat, b: nat)
    ensures Or(a, b) >= a && Or(a, b) >= b
  {
    if a == 0 {
    } else {
      OrAtLeast(a / 2, b / 2);
    }
  }

  /** High bits above j pass through an Or with something below 2^j. */
  lemma {:induction false} OrHigh(h: nat, r: nat, b: nat, j: nat)
    requires r < Pow2(j) && b < Pow2(j)
    ensures Or(h * Pow2(j) + r, b) == h * Pow2(j) + Or(r, b)
    decreases j
  {
    if j == 0 {
      OrZero(h);
    } else {
      var p := Pow2(j - 1);
      var a := h * Pow2(j) + r;
      assert h * Pow2(j) == 2 * (h * p);
      assert a / 2 == h * p + r / 2 && a % 2 == r % 2;
      OrHigh(h, r / 2, b / 2, j - 1);
      OrStep(a, b);
      OrStep(r, b);
    }
  }

  lemma {:induction false} OrZero(a: nat)
    ensures Or(a, 0) == a
  {
    if a == 0 {
    } else {
      OrZero(a / 2);
    }
  }

  lemma {:induction false} OrStep(a: nat, b: nat)
    ensures Or(a, b) == (if a % 2 == 1 || b % 2 == 1 then 1 else 0) + 2 * Or(a / 2, b / 2)
  {
  }

  // ---------- Rounding up to a power of two ----------

  /** Below 2^k, with at least the top m of its k bits set. */
  ghost predicate TopOnes(x: nat, k: nat, m: nat)
  {
    x < Pow2(k) && (if m >= k then x == Pow2(k) - 1 else x >= Pow2(k) - Pow2(k - m))
  }

  /** One smearing step doubles the run of ones at the top. */
  lemma {:induction false} SmearStep(x: nat, k: nat, m: nat)
    requires TopOnes(x, k, m) && m > 0
    ensures TopOnes(Or(x, Shr(x, m)), k, 2 * m)
  {
    hide Or, Shr, Pow2;
    var y := Shr(x, m);
    ShrAtMost(x, m);
    OrBelow(x, y, k);
    OrAtLeast(x, y);
    if m < k {
      SmearPart(x, k, m);
      if 2 * m < k {
        ShrTop(x, k, m);
      } else {
        ShrTopAll(x, k, m);
      }
    }
  }

  /** The bits below the run of ones are at least those shifted in. */
  lemma {:induction false} SmearPart(x: nat, k: nat, m: nat)
    requires m < k && Pow2(k) - Pow2(k - m) <= x < Pow2(k)
    ensures Or(x, Shr(x, m)) >= Pow2(k) - Pow2(k - m) + Shr(x, m)
  {
    hide Or, Shr;
    var j, y := k - m, Shr(x, m);
    var hi, p := Pow2(m) - 1, Pow2(j);
    PowAdd(m, j);
    assert hi * p == Pow2(k) - p;
    var r := x - hi * p;
    ShrBelow(x, k, m);
    OrHigh(hi, r, y, j);
    OrAtLeast(r, y);
  }

  lemma {:induction false} DivAtMost(x: nat, p: nat)
    requires p > 0
    ensures x / p <= x
  {
    var q := x / p;
    assert x == p * q + x % p;
    assert p * q >= q by {
      MulMonotone(q, 1, p);
    }
  }

  lemma {:induction false} ShrAtMost(x: nat, m: nat)
    ensures Shr(x, m) <= x
  {
    DivAtMost(x, Pow2(m));
  }

  lemma {:induction false} QuoBelow(x: nat, p: nat, b: nat)
    requires p > 0 && x < p * b
    ensures Quo(x, p) < b
  {
    hide Quo, Rem;
    QuoRem(x, p);
    if b <= Quo(x, p) {
      MulMonotone(p, b, Quo(x, p));
    }
  }

  lemma {:induction false} ShrBelow(x: nat, k: nat, m: nat)
    requires x < Pow2(k) && m <= k
    ensures Shr(x, m) < Pow2(k - m)
  {
    PowAdd(m, k - m);
    QuoBelow(x, Pow2(m), Pow2(k - m));
  }

  lemma {:induction false} ShrTop(x: nat, k: nat, m: nat)
    requires 2 * m < k && x >= Pow2(k) - Pow2(k - m)
    ensures Shr(x, m) >= Pow2(k - m) - Pow2(k - 2 * m)
  {
    var p, want := Pow2(m), Pow2(k - m) - Pow2(k - 2 * m);
    PowAdd(m, k - m);
    PowAdd(m, k - 2 * m);
    PowMonotone(k - 2 * m, k - m);
    hide Pow2;
    MulMinus(p, Pow2(k - m), Pow2(k - 2 * m));
    ShrAtLeast(x, p, want);
  }

  lemma {:induction false} MulMinus(p: nat, a: nat, b: nat)
    ensures p * (a - b) == p * a - p * b
  {
  }

  lemma {:induction false} ShrTopAll(x: nat, k: nat, m: nat)
    requires m < k <= 2 * m && x >= Pow2(k) - Pow2(k - m)
    ensures Shr(x, m) >= Pow2(k - m) - 1
  {
    var p, want := Pow2(m), Pow2(k - m) - 1;
    PowAdd(m, k - m);
    PowMonotone(k - m, m);
    assert p * want == Pow2(k) - p;
    ShrAtLeast(x, p, want);
  }

  lemma {:induction false} ShrAtLeast(x: nat, p: nat, want: nat)
    requires p > 0 && x >= p * want
    ensures x / p >= want
  {
    var q := x / p;
    assert x == p * q + x % p;
    if q + 1 <= want {
      MulMonotone(p, q + 1, want);
    }
  }

  ghost predicate IsPow2(c: nat)
  {
    exists k: nat :: c == Pow2(k)
  }

  /** Every number has a bit length. */
  lemma {:induction false} BitLength(x: nat) returns (k: nat)
    ensures x < Pow2(k) && (k > 0 ==> Pow2(k - 1) <= x)
  {
    if x == 0 {
      k := 0;
    } else {
      var k' := BitLength(x / 2);
      k := k' + 1;
    }
  }

  /** The least power of two not below n. */
  ghost predicate IsLeastPow2(c: nat, n: int)
  {
    IsPow2(c) && c >= n && forall d: nat :: IsPow2(d) && d >= n ==> c <= d
  }

  /** nextPow2: smears the highest bit of n - 1 downwards, then adds one. */
  method NextPow2(n: int) returns (c: nat)
    requires n <= Pow2(32)
    ensures c >= 1 && IsLeastPow2(c, n)
  {
    hide Or, Shr, TopOnes;
    if n <= 1 {
      assert Pow2(0) == 1;
      return 1;
    }
    var x := n - 1;
    ghost var k := BitLength(x);
    SmallLength(x, k);
    StartOnes(x, k);
    SmearStep(x, k, 1);
    x := Or(x, Shr(x, 1));
    SmearStep(x, k, 2);
    x := Or(x, Shr(x, 2));
    SmearStep(x, k, 4);
    x := Or(x, Shr(x, 4));
    SmearStep(x, k, 8);
    x := Or(x, Shr(x, 8));
    SmearStep(x, k, 16);
    x := Or(x, Shr(x, 16));
    AllOnes(x, k, 32);
    c := x + 1;
    LeastAbove(n, k);
  }

  lemma {:induction false} SmallLength(x: nat, k: nat)
    requires x < Pow2(32) && (k > 0 ==> Pow2(k - 1) <= x)
    ensures k <= 32
  {
    if k > 32 {
      PowMonotone(32, k - 1);
    }
  }

  lemma {:induction false} StartOnes(x: nat, k: nat)
    requires k > 0 && Pow2(k - 1) <= x < Pow2(k)
    ensures TopOnes(x, k, 1)
  {
  }

  lemma {:induction false} AllOnes(x: nat, k: nat, m: nat)
    requires TopOnes(x, k, m) && k <= m
    ensures x == Pow2(k) - 1
  {
  }

  lemma {:induction false} LeastAbove(n: int, k: nat)
    requires k > 0 && Pow2(k - 1) <= n - 1
    ensures forall d: nat :: IsPow2(d) && d >= n ==> Pow2(k) <= d
  {
    forall d: nat | IsPow2(d) && d >= n
      ensures Pow2(k) <= d
    {
      var j: nat :| d == Pow2(j);
      if j < k {
        PowMonotone(j, k - 1);
      } else {
        PowMonotone(k, j);
      }
    }
  }
}
