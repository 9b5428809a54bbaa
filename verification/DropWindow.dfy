/**
 The sliding drop counter (internal/backpressure/channel.go): ten one-second buckets in a
 circular array, advanced by clock readings that may go backwards.
 */
module DropWindow {
  const BUCKETS := 10

  /** How often second s occurs. */
  function Count(hist: seq<int>, s: int): nat
  {
    if hist == [] then 0 else (if hist[|hist| - 1] == s then 1 else 0) + Count(hist[..|hist| - 1], s)
  }

  /** How many recorded seconds lie in the ten seconds ending at `now`. */
  function InWindow(hist: seq<int>, now: int): nat
  {
    if hist == [] then 0
    else (if now - BUCKETS < hist[|hist| - 1] <= now then 1 else 0) + InWindow(hist[..|hist| - 1], now)
  }

  /** That is, how many places of the history hold one. */
  lemma {:induction false} WindowIs(hist: seq<int>, now: int)
    ensures InWindow(hist, now) == |set i | 0 <= i < |hist| && now - 10 < hist[i] <= now|
  {
    var all := set i | 0 <= i < |hist| && now - 10 < hist[i] <= now;
    if hist == [] {
      assert all == {};
    } else {
      var n := |hist| - 1;
      var rest := hist[..n];
      WindowIs(rest, now);
      var before := set i | 0 <= i < |rest| && now - 10 < rest[i] <= now;
      assert all == if now - 10 < hist[n] <= now then before + {n} else before;
    }
  }

  /** The one second of the window ending at `now` that uses bucket j. */
  function SecondOf(now: int, j: int): (s: int)
    requires 0 <= j < BUCKETS
    ensures now - BUCKETS < s <= now
  {
    now - (now - j) % BUCKETS
  }

  /** How many buckets after the one for second `now` bucket j comes, going round. */
  function Gap(now: int, j: int): (g: int)
    ensures 0 <= g < BUCKETS
  {
    (j - now) % BUCKETS
  }

  function Sum(b: seq<int>): int
  {
    if b == [] then 0 else Sum(b[..|b| - 1]) + b[|b| - 1]
  }

  lemma {:induction false} SecondOfBucket(now: int, j: int, e: int)
    requires 0 <= j < BUCKETS
    ensures e == SecondOf(now, j) <==> now - BUCKETS < e <= now && e % BUCKETS == j
  {
  }

  /** The buckets with second e counted: exactly one of them holds e if it is in the window. */
  lemma {:induction false} SumOfHits(now: int, e: int, n: nat)
    requires n <= BUCKETS
    ensures Sum(Hits(now, e, n)) == if now - BUCKETS < e <= now && e % BUCKETS < n then 1 else 0
  {
    if n == 0 {
    } else {
      SumOfHits(now, e, n - 1);
      assert Hits(now, e, n)[..n - 1] == Hits(now, e, n - 1);
      SecondOfBucket(now, n - 1, e);
    }
  }

  function Hits(now: int, e: int, n: nat): seq<int>
    requires n <= BUCKETS
  {
    seq(n, j requires 0 <= j < n => if e == SecondOf(now, j) then 1 else 0)
  }

  function Counts(hist: seq<int>, now: int, n: nat): seq<int>
    requires n <= BUCKETS
  {
    seq(n, j requires 0 <= j < n => Count(hist, SecondOf(now, j)))
  }

  lemma {:induction false} SumAdds(a: seq<int>, b: seq<int>, c: seq<int>)
    requires |a| == |b| == |c| && forall j :: 0 <= j < |a| ==> a[j] == b[j] + c[j]
    ensures Sum(a) == Sum(b) + Sum(c)
  {
    if a == [] {
    } else {
      var n := |a| - 1;
      SumAdds(a[..n], b[..n], c[..n]);
    }
  }

  lemma {:induction false} SumOfZeros(a: seq<int>)
    requires forall j :: 0 <= j < |a| ==> a[j] == 0
    ensures Sum(a) == 0
  {
    if a == [] {
    } else {
      SumOfZeros(a[..|a| - 1]);
    }
  }

  /** Summing the buckets counts the window. */
  lemma {:induction false} SumIsWindow(hist: seq<int>, now: int)
    ensures Sum(Counts(hist, now, BUCKETS)) == InWindow(hist, now)
  {
    var all := Counts(hist, now, BUCKETS);
    if hist == [] {
      SumOfZeros(all);
    } else {
      var e, rest := hist[|hist| - 1], hist[..|hist| - 1];
      SumIsWindow(rest, now);
      SumOfHits(now, e, BUCKETS);
      SumAdds(all, Hits(now, e, BUCKETS), Counts(rest, now, BUCKETS));
    }
  }

  lemma {:induction false} CountFuture(hist: seq<int>, s: int)
    requires forall i :: 0 <= i < |hist| ==> hist[i] < s
    ensures Count(hist, s) == 0
  {
    if hist == [] {
    } else {
      CountFuture(hist[..|hist| - 1], s);
    }
  }

  class DropBucketWindow {
    const buckets: array<int>
    var slot: nat
    var prevSec: int
    /** The seconds of the drops since the last reset, each clamped to the latest one seen. */
    ghost var hist: seq<int>

    constructor ()
      ensures Valid() && fresh(buckets) && hist == [] && prevSec == 0
    {
      buckets := new int[BUCKETS](_ => 0);
      slot, prevSec, hist := 0, 0, [];
    }

    ghost predicate Valid()
      reads this, buckets
    {
      && buckets.Length == BUCKETS && prevSec >= 0 && slot == prevSec % BUCKETS
      && (forall i :: 0 <= i < |hist| ==> hist[i] <= prevSec)
      && (forall j :: 0 <= j < BUCKETS ==> buckets[j] == Count(hist, SecondOf(prevSec, j)))
    }

    method ClearAll()
      requires buckets.Length == BUCKETS
      modifies buckets
      ensures forall j :: 0 <= j < BUCKETS ==> buckets[j] == 0
    {
      for i := 0 to BUCKETS
        invariant forall j :: 0 <= j < i ==> buckets[j] == 0
      {
        buckets[i] := 0;
      }
    }

    /** Clears the `adv` buckets after the current one, going round. */
    method ClearNext(adv: nat)
      requires buckets.Length == BUCKETS && prevSec >= 0 && slot == prevSec % BUCKETS && adv < BUCKETS
      modifies buckets
      ensures forall j :: 0 <= j < BUCKETS ==>
                buckets[j] == if 1 <= Gap(prevSec, j) <= adv then 0 else old(buckets[j])
    {
      hide Gap;
      for i := 1 to adv + 1
        invariant forall j :: 0 <= j < BUCKETS ==>
                    buckets[j] == if 1 <= Gap(prevSec, j) < i then 0 else old(buckets[j])
      {
        var k := (slot + i) % BUCKETS;
        forall j | 0 <= j < BUCKETS
          ensures Gap(prevSec, j) == i <==> j == k
        {
          Ahead(prevSec, i, j);
        }
        buckets[k] := 0;
      }
    }

    /** Moves the window so that it ends at `sec`, clearing the buckets it passes over. */
    method Advance(sec: int)
      requires Valid() && sec > prevSec
      modifies this, buckets
      ensures Valid() && prevSec == sec && hist == old(hist)
    {
      var adv := sec - prevSec;
      if adv >= BUCKETS {
        ClearAll();
      } else {
        ClearNext(adv);
      }
      forall j | 0 <= j < BUCKETS
        ensures buckets[j] == Count(hist, SecondOf(sec, j))
      {
        BucketAfter(hist, prevSec, sec, j);
      }
      slot, prevSec := sec % BUCKETS, sec;
    }

    /**
     Records one drop at clock reading `sec` and returns exactly the number of drops since the
     last reset that fall in the ten seconds ending at the latest second seen.
     */
    method Record(sec: int) returns (total: int)
      requires Valid()
      modifies this, buckets
      ensures Valid() && prevSec == (if sec > old(prevSec) then sec else old(prevSec))
      ensures hist == old(hist) + [prevSec] && total == InWindow(hist, prevSec)
    {
      if sec > prevSec {
        Advance(sec);
      }
      ghost var before := hist;
      buckets[slot] := buckets[slot] + 1;
      hist := hist + [prevSec];
      forall j | 0 <= j < BUCKETS
        ensures buckets[j] == Count(hist, SecondOf(prevSec, j))
      {
        assert hist[..|hist| - 1] == before;
        SecondOfBucket(prevSec, j, prevSec);
      }
      total := SumBuckets();
      SumIsWindow(hist, prevSec);
    }

    method SumBuckets() returns (total: int)
      requires Valid()
      ensures total == Sum(Counts(hist, prevSec, BUCKETS))
    {
      total := 0;
      ghost var all := Counts(hist, prevSec, BUCKETS);
      for i := 0 to BUCKETS
        invariant total == Sum(all[..i])
      {
        assert all[..i + 1][..i] == all[..i];
        total := total + buckets[i];
      }
      assert all[..BUCKETS] == all;
    }

    method Reset()
      requires Valid()
      modifies this, buckets
      ensures Valid() && hist == [] && prevSec == 0
    {
      ClearAll();
      slot, prevSec, hist := 0, 0, [];
    }
  }

  lemma {:induction false} Ahead(now: int, i: int, j: int)
    requires now >= 0 && 0 <= i < BUCKETS && 0 <= j < BUCKETS
    ensures Gap(now, j) == i <==> j == (now % BUCKETS + i) % BUCKETS
  {
  }

  /** When the window moves, a bucket either keeps its second or starts a new one. */
  lemma {:induction false} BucketAfter(hist: seq<int>, now: int, later: int, j: int)
    requires now < later && 0 <= j < BUCKETS && forall i :: 0 <= i < |hist| ==> hist[i] <= now
    ensures later - now >= BUCKETS || 1 <= Gap(now, j) <= later - now ==> Count(hist, SecondOf(later, j)) == 0
    ensures later - now < BUCKETS && !(1 <= Gap(now, j) <= later - now) ==> SecondOf(later, j) == SecondOf(now, j)
  {
    hide SecondOf, Gap;
    var s := SecondOf(later, j);
    SecondMoves(now, later, j);
    if s > now {
      CountFuture(hist, s);
    }
  }

  lemma {:induction false} SecondMoves(now: int, later: int, j: int)
    requires now < later && 0 <= j < BUCKETS
    ensures if later - now >= BUCKETS || 1 <= Gap(now, j) <= later - now then SecondOf(later, j) > now
            else SecondOf(later, j) == SecondOf(now, j)
  {
    SecondOfBucket(now, j, SecondOf(now, j));
    SecondOfBucket(later, j, SecondOf(now, j));
  }

  // ---------- Whole runs ----------

  /** The latest second of some clock readings, which start at 0. */
  function LatestOf(readings: seq<int>): (m: int)
    ensures m >= 0
  {
    if readings == [] then 0
    else
      var before, sec := LatestOf(readings[..|readings| - 1]), readings[|readings| - 1];
      if sec > before then sec else before
  }

  /** Each reading replaced by the latest one up to it. */
  function Clamped(readings: seq<int>): (h: seq<int>)
    ensures |h| == |readings|
  {
    if readings == [] then [] else Clamped(readings[..|readings| - 1]) + [LatestOf(readings)]
  }

  /** The latest is the greatest of 0 and the readings, and reading i counts for the latest one up to it. */
  lemma {:induction false} LatestIs(readings: seq<int>, i: nat)
    requires i < |readings|
    ensures readings[i] <= LatestOf(readings) && (LatestOf(readings) == 0 || LatestOf(readings) in readings)
    ensures Clamped(readings)[i] == LatestOf(readings[..i + 1])
  {
    var n := |readings| - 1;
    if i == n {
      assert readings[..i + 1] == readings;
      if n > 0 {
        LatestIs(readings[..n], n - 1);
      }
    } else {
      LatestIs(readings[..n], i);
      assert readings[..n][..i + 1] == readings[..i + 1];
    }
  }

  /** A drop recorded at a clock reading, or a reset. */
  datatype Tick = Drop(sec: int) | Cleared

  /** The readings since the last reset. */
  function Since(ticks: seq<Tick>): seq<int>
  {
    if ticks == [] then []
    else
      match ticks[|ticks| - 1]
      case Drop(sec) => Since(ticks[..|ticks| - 1]) + [sec]
      case Cleared => []
  }

  /** The drops since the last reset within the window ending at the latest reading since then. */
  function Recent(ticks: seq<Tick>): int
  {
    InWindow(Clamped(Since(ticks)), LatestOf(Since(ticks)))
  }

  lemma {:induction false} OneMore(readings: seq<int>, sec: int)
    ensures LatestOf(readings + [sec]) == (if sec > LatestOf(readings) then sec else LatestOf(readings))
    ensures Clamped(readings + [sec]) == Clamped(readings) + [LatestOf(readings + [sec])]
  {
    assert (readings + [sec])[..|readings|] == readings;
  }

  /** The window holds what was recorded since the last reset. */
  ghost predicate Holds(w: DropBucketWindow, readings: seq<int>)
    reads w, w.buckets
  {
    w.Valid() && w.prevSec == LatestOf(readings) && w.hist == Clamped(readings)
  }

  method OneTick(w: DropBucketWindow, ghost ticks: seq<Tick>, t: Tick) returns (total: int)
    requires Holds(w, Since(ticks))
    modifies w, w.buckets
    ensures Holds(w, Since(ticks + [t]))
    ensures total == if t.Drop? then Recent(ticks + [t]) else 0
  {
    hide InWindow, DropBucketWindow.Valid, LatestOf, Clamped;
    assert (ticks + [t])[..|ticks|] == ticks;
    match t
    case Drop(sec) =>
      OneMore(Since(ticks), sec);
      total := w.Record(sec);
    case Cleared =>
      Nothing();
      w.Reset();
      total := 0;
  }

  lemma {:induction false} Nothing()
    ensures LatestOf([]) == 0 && Clamped([]) == []
  {
  }

  /** For every sequence of clock readings and resets, even readings going backwards, each total is the window's. */
  method AnyReadings(ticks: seq<Tick>) returns (totals: seq<int>)
    ensures |totals| == |ticks|
    ensures forall i :: 0 <= i < |ticks| ==> totals[i] == if ticks[i].Drop? then Recent(ticks[..i + 1]) else 0
  {
    hide Recent, Since, LatestOf, Clamped, DropBucketWindow.Valid;
    var w := new DropBucketWindow();
    totals := [];
    Nothing();
    NothingSince();
    assert ticks[..0] == [];
    for n := 0 to |ticks|
      invariant Holds(w, Since(ticks[..n])) && fresh(w) && fresh(w.buckets) && |totals| == n
      invariant forall i :: 0 <= i < n ==> totals[i] == if ticks[i].Drop? then Recent(ticks[..i + 1]) else 0
    {
      assert ticks[..n + 1] == ticks[..n] + [ticks[n]];
      var total := OneTick(w, ticks[..n], ticks[n]);
      totals := totals + [total];
    }
  }

  lemma {:induction false} NothingSince()
    ensures Since([]) == []
  {
  }
}
