/** Small notions that several components share. */
module Collections {
  datatype Option<T> = None | Some(value: T)

  /** The last `n` elements. */
  function Newest<T>(s: seq<T>, n: nat): seq<T>
  {
    if |s| <= n then s else s[|s| - n..]
  }

  /** The i-th from the end is the i-th from the end, as far as there are n. */
  lemma {:induction false} NewestIs<T>(s: seq<T>, n: nat, i: nat)
    ensures |Newest(s, n)| == if |s| < n then |s| else n
    ensures i < n && i < |s| ==> Newest(s, n)[|Newest(s, n)| - 1 - i] == s[|s| - 1 - i]
  {
  }

  ghost predicate Distinct<T>(s: seq<T>)
  {
    forall i, j :: 0 <= i < j < |s| ==> s[i] != s[j]
  }
}

/** Quotients and remainders of natural numbers. */
module Arithmetic {
  lemma {:induction false} MulMonotone(d: nat, a: nat, b: nat)
    requires a <= b
    ensures d * a <= d * b
  {
  }

  lemma {:induction false} QuotientAtMost(d: nat, q: nat, r: nat, q': nat, r': nat)
    requires d * q + r == d * q' + r' && r < d
    ensures q' <= q
  {
    if q + 1 <= q' {
      MulMonotone(d, q + 1, q');
    }
  }

  lemma {:induction false} QuotientUnique(n: nat, d: nat, q: nat, r: nat)
    requires d > 0 && r < d && n == d * q + r
    ensures n / d == q && n % d == r
  {
    QuotientAtMost(d, q, r, n / d, n % d);
    QuotientAtMost(d, n / d, n % d, q, r);
  }

  lemma {:induction false} Regroup(b: nat, p: nat, hi: nat, r: nat, low: nat)
    ensures b * (p * hi + r) + low == (b * p) * hi + (b * r + low)
  {
    assert b * (p * hi) == (b * p) * hi;
  }

  lemma {:induction false} DigitBound(b: nat, p: nat, r: nat, low: nat)
    requires r < p && low < b
    ensures b * r + low < b * p
  {
    MulMonotone(b, r + 1, p);
  }

  function Quo(n: nat, d: nat): nat
    requires d > 0
  {
    n / d
  }

  function Rem(n: nat, d: nat): nat
    requires d > 0
  {
    n % d
  }

  lemma {:induction false} QuoRem(n: nat, d: nat)
    requires d > 0
    ensures n == d * Quo(n, d) + Rem(n, d) && Rem(n, d) < d
  {
  }

  lemma {:induction false} RemUnique(n: nat, d: nat, q: nat, r: nat)
    requires r < d && n == d * q + r
    ensures Rem(n, d) == r
  {
    QuotientUnique(n, d, q, r);
  }

  lemma {:induction false} RemSplit(n: nat, b: nat, p: nat)
    requires b > 0 && p > 0
    ensures b * p > 0 && Rem(n, b * p) == Rem(n, b) + b * Rem(Quo(n, b), p)
  {
    hide Quo, Rem;
    var q, low := Quo(n, b), Rem(n, b);
    var hi, r := Quo(q, p), Rem(q, p);
    QuoRem(n, b);
    QuoRem(q, p);
    Regroup(b, p, hi, r, low);
    DigitBound(b, p, r, low);
    RemUnique(n, b * p, hi, b * r + low);
  }

  lemma {:induction false} QuoTwice(n: nat, b: nat, p: nat)
    requires b > 0 && p > 0
    ensures b * p > 0 && Quo(Quo(n, b), p) == Quo(n, b * p)
  {
    hide Quo, Rem;
    var q, low := Quo(n, b), Rem(n, b);
    var hi, r := Quo(q, p), Rem(q, p);
    QuoRem(n, b);
    QuoRem(q, p);
    Regroup(b, p, hi, r, low);
    DigitBound(b, p, r, low);
    QuoUnique(n, b * p, hi, b * r + low);
  }

  lemma {:induction false} QuoUnique(n: nat, d: nat, q: nat, r: nat)
    requires r < d && n == d * q + r
    ensures Quo(n, d) == q
  {
    QuotientUnique(n, d, q, r);
  }

  lemma {:induction false} DivTwice(n: nat, b: nat, p: nat)
    requires b > 0 && p > 0
    ensures b * p > 0 && n / b / p == n / (b * p)
  {
    QuoTwice(n, b, p);
  }

  /** The last digit in base b, and the rest. */
  lemma {:induction false} ModSplit(n: nat, b: nat, p: nat)
    requires b > 0 && p > 0
    ensures b * p > 0 && n % (b * p) == n % b + b * ((n / b) % p)
  {
    RemSplit(n, b, p);
  }
}
