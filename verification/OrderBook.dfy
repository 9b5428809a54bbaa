/**
 The order book (internal/orderbook/book.go): each side is an array of price levels kept in
 order in place, at most 200 deep. Prices are whole ticks, so the source's epsilon comparisons
 are exact comparisons.
 */
module OrderBook {
  const MAX_DEPTH := 200

  datatype Level = Level(price: int, quantity: int)
  datatype Side = Bid | Ask | OtherSide
  datatype Action = Insert | Update | Delete | OtherAction
  datatype LevelUpdate = LevelUpdate(action: Action, side: Side, price: int, size: int)

  /** Smaller is better: bids from the highest price, asks from the lowest. */
  function Rank(isBid: bool, price: int): int
  {
    if isBid then -price else price
  }

  ghost predicate Sorted(isBid: bool, levels: seq<Level>)
  {
    forall i, j :: 0 <= i < j < |levels| ==> Rank(isBid, levels[i].price) < Rank(isBid, levels[j].price)
  }

  /** An update to nothing is a deletion. */
  function Effective(u: LevelUpdate): Action
  {
    if u.action == Update && u.size <= 0 then Delete else u.action
  }

  // ---------- Reference: a map of prices, of which the best are kept ----------

  predicate Listed(levels: seq<Level>, price: int)
  {
    exists i :: 0 <= i < |levels| && levels[i].price == price
  }

  /**
   The levels, best first, are the best `n` entries of the map: whatever is not listed is worse
   than everything listed, and then the list is full.
   */
  ghost predicate IsBest(isBid: bool, levels: seq<Level>, book: map<int, int>, n: nat)
  {
    && Sorted(isBid, levels) && |levels| <= n
    && (forall i :: 0 <= i < |levels| ==> levels[i].price in book && book[levels[i].price] == levels[i].quantity)
    && (forall p :: p in book && !Listed(levels, p) ==> |levels| == n && AllBetter(isBid, levels, p))
  }

  ghost predicate AllBetter(isBid: bool, levels: seq<Level>, price: int)
  {
    forall i :: 0 <= i < |levels| ==> Rank(isBid, levels[i].price) < Rank(isBid, price)
  }

  /** The map from listed prices to quantities. */
  function ToMap(levels: seq<Level>): map<int, int>
  {
    if levels == [] then map[] else ToMap(levels[..|levels| - 1])[levels[|levels| - 1].price := levels[|levels| - 1].quantity]
  }

  /** The map holds exactly the levels. */
  ghost predicate Exact(levels: seq<Level>, book: map<int, int>)
  {
    && (forall i :: 0 <= i < |levels| ==> levels[i].price in book && book[levels[i].price] == levels[i].quantity)
    && (forall p :: p in book ==> Listed(levels, p))
  }

  function Changed(book: map<int, int>, u: LevelUpdate): map<int, int>
  {
    match Effective(u)
    case Insert => book[u.price := u.size]
    case Update => book[u.price := u.size]
    case Delete => book - {u.price}
    case OtherAction => book
  }

  // ---------- What the code does to the list ----------

  ghost predicate InsertionPoint(isBid: bool, levels: seq<Level>, price: int, idx: nat)
  {
    && idx <= |levels|
    && (forall i :: 0 <= i < idx ==> Rank(isBid, levels[i].price) < Rank(isBid, price))
    && (forall i :: idx <= i < |levels| ==> Rank(isBid, levels[i].price) >= Rank(isBid, price))
  }

  predicate Exists(levels: seq<Level>, price: int, idx: nat)
  {
    idx < |levels| && levels[idx].price == price
  }

  /** The update would write past the end: a new price worse than every level of a full side. */
  predicate Overruns(levels: seq<Level>, u: LevelUpdate, idx: nat)
  {
    Effective(u) in {Insert, Update} && !Exists(levels, u.price, idx) && |levels| >= MAX_DEPTH && idx == |levels|
  }

  function After(levels: seq<Level>, u: LevelUpdate, idx: nat): seq<Level>
    requires idx <= |levels| <= MAX_DEPTH && !Overruns(levels, u, idx)
  {
    var lvl := Level(u.price, u.size);
    match Effective(u)
    case Insert => Placed(levels, lvl, idx)
    case Update => Placed(levels, lvl, idx)
    case Delete => if Exists(levels, u.price, idx) then levels[..idx] + levels[idx + 1..] else levels
    case OtherAction => levels
  }

  function Placed(levels: seq<Level>, lvl: Level, idx: nat): seq<Level>
    requires idx <= |levels| <= MAX_DEPTH && (idx < MAX_DEPTH || Exists(levels, lvl.price, idx))
  {
    if Exists(levels, lvl.price, idx) then levels[idx := lvl]
    else if |levels| < MAX_DEPTH then levels[..idx] + [lvl] + levels[idx..]
    else levels[..idx] + [lvl] + levels[idx..MAX_DEPTH - 1]
  }

  // ---------- The list refines the map ----------

  lemma {:induction false} ToMapLists(levels: seq<Level>, p: int)
    ensures p in ToMap(levels) <==> Listed(levels, p)
  {
    if levels == [] {
    } else {
      var n := |levels| - 1;
      ToMapLists(levels[..n], p);
      ListedSnoc(levels, p);
    }
  }

  lemma {:induction false} ListedSnoc(levels: seq<Level>, p: int)
    requires levels != []
    ensures var n := |levels| - 1;
            Listed(levels, p) <==> Listed(levels[..n], p) || levels[n].price == p
  {
    var n := |levels| - 1;
    if Listed(levels[..n], p) {
      var i :| 0 <= i < n && levels[..n][i].price == p;
      assert levels[i].price == p;
    }
    if Listed(levels, p) {
      var i :| 0 <= i < |levels| && levels[i].price == p;
      assert i < n ==> levels[..n][i].price == p;
    }
  }

  lemma {:induction false} ToMapAt(isBid: bool, levels: seq<Level>, i: nat)
    requires Sorted(isBid, levels) && i < |levels|
    ensures levels[i].price in ToMap(levels) && ToMap(levels)[levels[i].price] == levels[i].quantity
  {
    var n := |levels| - 1;
    if i == n {
    } else {
      PricesDiffer(isBid, levels, i, n);
      ToMapAt(isBid, levels[..n], i);
    }
  }

  lemma {:induction false} ToMapExact(isBid: bool, levels: seq<Level>)
    requires Sorted(isBid, levels)
    ensures Exact(levels, ToMap(levels))
  {
    hide ToMap, Sorted, Listed;
    forall i | 0 <= i < |levels|
      ensures levels[i].price in ToMap(levels) && ToMap(levels)[levels[i].price] == levels[i].quantity
    {
      ToMapAt(isBid, levels, i);
    }
    forall p | p in ToMap(levels)
      ensures Listed(levels, p)
    {
      ToMapLists(levels, p);
    }
  }

  /** An update of the list is the same update of the map, cut to the best MAX_DEPTH. */
  lemma {:induction false} AfterIsBest(isBid: bool, levels: seq<Level>, u: LevelUpdate, idx: nat, book: map<int, int>)
    requires Sorted(isBid, levels) && |levels| <= MAX_DEPTH && Exact(levels, book)
    requires InsertionPoint(isBid, levels, u.price, idx) && !Overruns(levels, u, idx)
    ensures IsBest(isBid, After(levels, u, idx), Changed(book, u), MAX_DEPTH)
  {
    match Effective(u)
    case Insert => PlacedIsBest(isBid, levels, Level(u.price, u.size), idx, book);
    case Update => PlacedIsBest(isBid, levels, Level(u.price, u.size), idx, book);
    case Delete => DeletedIsBest(isBid, levels, u.price, idx, book);
    case OtherAction =>
  }

  lemma {:induction false} PlacedIsBest(isBid: bool, levels: seq<Level>, lvl: Level, idx: nat, book: map<int, int>)
    requires Sorted(isBid, levels) && |levels| <= MAX_DEPTH && Exact(levels, book)
    requires InsertionPoint(isBid, levels, lvl.price, idx) && (idx < MAX_DEPTH || Exists(levels, lvl.price, idx))
    ensures IsBest(isBid, Placed(levels, lvl, idx), book[lvl.price := lvl.quantity], MAX_DEPTH)
  {
    hide IsBest, Exact, Sorted;
    if Exists(levels, lvl.price, idx) {
      ReplacedIsBest(isBid, levels, lvl, idx, book);
    } else {
      var keep := if |levels| < MAX_DEPTH then |levels| else MAX_DEPTH - 1;
      assert levels[idx..|levels|] == levels[idx..];
      InsertedIsBest(isBid, levels, lvl, idx, book, keep);
    }
  }

  lemma {:induction false} ReplacedIsBest(isBid: bool, levels: seq<Level>, lvl: Level, idx: nat, book: map<int, int>)
    requires Sorted(isBid, levels) && |levels| <= MAX_DEPTH && Exact(levels, book) && Exists(levels, lvl.price, idx)
    ensures IsBest(isBid, levels[idx := lvl], book[lvl.price := lvl.quantity], MAX_DEPTH)
  {
    var now := levels[idx := lvl];
    assert forall i :: 0 <= i < |now| ==> now[i].price == levels[i].price;
    forall p | p in book[lvl.price := lvl.quantity]
      ensures Listed(now, p)
    {
      assert Listed(levels, p);
      var i :| 0 <= i < |levels| && levels[i].price == p;
      assert now[i].price == p;
    }
  }

  lemma {:induction false} InsertedAt(levels: seq<Level>, lvl: Level, idx: nat, keep: nat, i: nat)
    requires idx <= keep <= |levels| && i <= keep
    ensures (levels[..idx] + [lvl] + levels[idx..keep])[i] == if i < idx then levels[i] else if i == idx then lvl else levels[i - 1]
  {
  }

  lemma {:induction false} InsertedSorted(isBid: bool, levels: seq<Level>, lvl: Level, idx: nat, keep: nat)
    requires Sorted(isBid, levels) && idx <= keep <= |levels|
    requires InsertionPoint(isBid, levels, lvl.price, idx) && !Exists(levels, lvl.price, idx)
    ensures Sorted(isBid, levels[..idx] + [lvl] + levels[idx..keep])
  {
    var now := levels[..idx] + [lvl] + levels[idx..keep];
    forall i, j | 0 <= i < j < |now|
      ensures Rank(isBid, now[i].price) < Rank(isBid, now[j].price)
    {
      InsertedAt(levels, lvl, idx, keep, i);
      InsertedAt(levels, lvl, idx, keep, j);
    }
  }

  /** Inserting a level and keeping the first `keep` old ones: all of them, or all but the worst. */
  lemma {:induction false} InsertedIsBest(isBid: bool, levels: seq<Level>, lvl: Level, idx: nat, book: map<int, int>, keep: nat)
    requires Sorted(isBid, levels) && Exact(levels, book)
    requires InsertionPoint(isBid, levels, lvl.price, idx) && !Exists(levels, lvl.price, idx)
    requires idx <= keep < MAX_DEPTH && (keep == |levels| || (keep == |levels| - 1 && |levels| == MAX_DEPTH))
    ensures IsBest(isBid, levels[..idx] + [lvl] + levels[idx..keep], book[lvl.price := lvl.quantity], MAX_DEPTH)
  {
    var now, book' := levels[..idx] + [lvl] + levels[idx..keep], book[lvl.price := lvl.quantity];
    InsertedSorted(isBid, levels, lvl, idx, keep);
    forall i | 0 <= i < |now|
      ensures now[i].price in book' && book'[now[i].price] == now[i].quantity
    {
      InsertedAt(levels, lvl, idx, keep, i);
    }
    forall p | p in book' && !Listed(now, p)
      ensures |now| == MAX_DEPTH && AllBetter(isBid, now, p)
    {
      UnlistedIsWorst(isBid, levels, lvl, idx, keep, p);
    }
  }

  lemma {:induction false} UnlistedIsWorst(isBid: bool, levels: seq<Level>, lvl: Level, idx: nat, keep: nat, p: int)
    requires Sorted(isBid, levels)
    requires InsertionPoint(isBid, levels, lvl.price, idx) && !Exists(levels, lvl.price, idx)
    requires idx <= keep < MAX_DEPTH && (keep == |levels| || (keep == |levels| - 1 && |levels| == MAX_DEPTH))
    requires p == lvl.price || Listed(levels, p)
    ensures var now := levels[..idx] + [lvl] + levels[idx..keep];
            Listed(now, p) || (|now| == MAX_DEPTH && AllBetter(isBid, now, p))
  {
    var now := levels[..idx] + [lvl] + levels[idx..keep];
    if p == lvl.price {
      InsertedAt(levels, lvl, idx, keep, idx);
      assert now[idx].price == p;
    } else {
      var i :| 0 <= i < |levels| && levels[i].price == p;
      if i < idx {
        InsertedAt(levels, lvl, idx, keep, i);
        assert now[i].price == p;
      } else if i < keep {
        InsertedAt(levels, lvl, idx, keep, i + 1);
        assert now[i + 1].price == p;
      } else {
        forall j | 0 <= j < |now|
          ensures Rank(isBid, now[j].price) < Rank(isBid, p)
        {
          InsertedAt(levels, lvl, idx, keep, j);
        }
      }
    }
  }

  lemma {:induction false} DeletedIsBest(isBid: bool, levels: seq<Level>, price: int, idx: nat, book: map<int, int>)
    requires Sorted(isBid, levels) && |levels| <= MAX_DEPTH && Exact(levels, book)
    requires InsertionPoint(isBid, levels, price, idx)
    ensures IsBest(isBid, if Exists(levels, price, idx) then levels[..idx] + levels[idx + 1..] else levels, book - {price}, MAX_DEPTH)
  {
    if Exists(levels, price, idx) {
      RemovedIsBest(isBid, levels, idx, book);
    } else {
      AbsentUnlisted(isBid, levels, price, idx);
      assert book - {price} == book;
    }
  }

  lemma {:induction false} RemovedIsBest(isBid: bool, levels: seq<Level>, idx: nat, book: map<int, int>)
    requires Sorted(isBid, levels) && |levels| <= MAX_DEPTH && Exact(levels, book) && idx < |levels|
    ensures IsBest(isBid, levels[..idx] + levels[idx + 1..], book - {levels[idx].price}, MAX_DEPTH)
  {
    hide Sorted;
    var now, price := levels[..idx] + levels[idx + 1..], levels[idx].price;
    RemovedSorted(isBid, levels, idx);
    forall i | 0 <= i < |now|
      ensures now[i].price in book - {price} && (book - {price})[now[i].price] == now[i].quantity
    {
      RemovedAt(levels, idx, i);
      PricesDiffer(isBid, levels, idx, if i < idx then i else i + 1);
    }
    forall p | p in book - {price}
      ensures Listed(now, p)
    {
      StillListed(levels, idx, p);
    }
  }

  lemma {:induction false} PricesDiffer(isBid: bool, levels: seq<Level>, i: nat, j: nat)
    requires Sorted(isBid, levels) && i < |levels| && j < |levels| && i != j
    ensures levels[i].price != levels[j].price
  {
    if i < j {
      assert Rank(isBid, levels[i].price) < Rank(isBid, levels[j].price);
    } else {
      assert Rank(isBid, levels[j].price) < Rank(isBid, levels[i].price);
    }
  }

  lemma {:induction false} StillListed(levels: seq<Level>, idx: nat, p: int)
    requires idx < |levels| && Listed(levels, p) && p != levels[idx].price
    ensures Listed(levels[..idx] + levels[idx + 1..], p)
  {
    var now := levels[..idx] + levels[idx + 1..];
    var i :| 0 <= i < |levels| && levels[i].price == p;
    var j := if i < idx then i else i - 1;
    RemovedAt(levels, idx, j);
    assert now[j].price == p;
  }

  lemma {:induction false} AbsentUnlisted(isBid: bool, levels: seq<Level>, price: int, idx: nat)
    requires Sorted(isBid, levels) && InsertionPoint(isBid, levels, price, idx) && !Exists(levels, price, idx)
    ensures !Listed(levels, price)
  {
  }

  lemma {:induction false} RemovedAt(levels: seq<Level>, idx: nat, i: nat)
    requires idx < |levels| && i < |levels| - 1
    ensures (levels[..idx] + levels[idx + 1..])[i] == levels[if i < idx then i else i + 1]
  {
  }

  lemma {:induction false} RemovedSorted(isBid: bool, levels: seq<Level>, idx: nat)
    requires Sorted(isBid, levels) && idx < |levels|
    ensures Sorted(isBid, levels[..idx] + levels[idx + 1..])
  {
    var now := levels[..idx] + levels[idx + 1..];
    forall i, j | 0 <= i < j < |now|
      ensures Rank(isBid, now[i].price) < Rank(isBid, now[j].price)
    {
      RemovedAt(levels, idx, i);
      RemovedAt(levels, idx, j);
    }
  }

  /** The best `n` entries of a map, best first, are one list only. */
  lemma {:induction false} BestIsUnique(isBid: bool, a: seq<Level>, b: seq<Level>, book: map<int, int>, n: nat)
    requires IsBest(isBid, a, book, n) && IsBest(isBid, b, book, n)
    ensures a == b
  {
    if |a| <= |b| {
      BestAgree(isBid, a, b, book, n, |a|);
      NoneMissing(isBid, a, b, book, n);
    } else {
      BestAgree(isBid, b, a, book, n, |b|);
      NoneMissing(isBid, b, a, book, n);
    }
  }

  lemma {:induction false} BestAgree(isBid: bool, a: seq<Level>, b: seq<Level>, book: map<int, int>, n: nat, k: nat)
    requires IsBest(isBid, a, book, n) && IsBest(isBid, b, book, n) && k <= |a| <= |b|
    ensures a[..k] == b[..k]
  {
    hide IsBest;
    if k == 0 {
    } else {
      BestAgree(isBid, a, b, book, n, k - 1);
      NotBetter(isBid, a, b, book, n, k - 1);
      NotBetter(isBid, b, a, book, n, k - 1);
      BestEntry(isBid, a, book, n, k - 1);
      BestEntry(isBid, b, book, n, k - 1);
      assert a[k - 1] == b[k - 1];
      assert a[..k] == a[..k - 1] + [a[k - 1]] && b[..k] == b[..k - 1] + [b[k - 1]];
    }
  }

  lemma {:induction false} NoneMissing(isBid: bool, a: seq<Level>, b: seq<Level>, book: map<int, int>, n: nat)
    requires IsBest(isBid, a, book, n) && IsBest(isBid, b, book, n) && |a| <= |b| && a == b[..|a|]
    ensures |a| == |b|
  {
    hide IsBest;
    if |a| < |b| {
      BestEntry(isBid, b, book, n, |a|);
      SamePlaces(isBid, b, a, |a|);
      UnlistedIfFull(isBid, a, book, n, b[|a|].price);
      BestFits(isBid, b, book, n);
    }
  }

  lemma {:induction false} BestEntry(isBid: bool, levels: seq<Level>, book: map<int, int>, n: nat, i: nat)
    requires IsBest(isBid, levels, book, n) && i < |levels|
    ensures Sorted(isBid, levels) && levels[i].price in book && book[levels[i].price] == levels[i].quantity
  {
  }

  lemma {:induction false} UnlistedIfFull(isBid: bool, levels: seq<Level>, book: map<int, int>, n: nat, p: int)
    requires IsBest(isBid, levels, book, n) && p in book && !Listed(levels, p)
    ensures |levels| == n
  {
  }

  lemma {:induction false} BestFits(isBid: bool, levels: seq<Level>, book: map<int, int>, n: nat)
    requires IsBest(isBid, levels, book, n)
    ensures |levels| <= n
  {
  }

  /** Two sorted lists that agree on the first k: the k-th price of one is not among those of the other. */
  lemma {:induction false} SamePlaces(isBid: bool, a: seq<Level>, b: seq<Level>, k: nat)
    requires Sorted(isBid, a) && k < |a| && k <= |b| && a[..k] == b[..k]
    ensures forall j :: 0 <= j < |b| && b[j].price == a[k].price ==> j >= k
  {
    forall j | 0 <= j < k
      ensures b[j].price != a[k].price
    {
      assert a[j] == a[..k][j] == b[..k][j] == b[j];
      PricesDiffer(isBid, a, j, k);
    }
  }

  lemma {:induction false} NotBetter(isBid: bool, a: seq<Level>, b: seq<Level>, book: map<int, int>, n: nat, k: nat)
    requires IsBest(isBid, a, book, n) && IsBest(isBid, b, book, n) && k < |a| && k < |b| && a[..k] == b[..k]
    ensures Rank(isBid, a[k].price) >= Rank(isBid, b[k].price)
  {
    SamePlaces(isBid, a, b, k);
  }

  // ---------- Where an update lands ----------

  function Position(isBid: bool, levels: seq<Level>, price: int): (idx: nat)
    ensures idx <= |levels|
  {
    if levels == [] || Rank(isBid, levels[0].price) >= Rank(isBid, price) then 0
    else 1 + Position(isBid, levels[1..], price)
  }

  lemma {:induction false} PointIsPosition(isBid: bool, levels: seq<Level>, price: int, idx: nat)
    requires InsertionPoint(isBid, levels, price, idx)
    ensures idx == Position(isBid, levels, price)
  {
    if levels == [] || Rank(isBid, levels[0].price) >= Rank(isBid, price) {
    } else {
      assert forall i :: 0 < i < |levels| ==> levels[i] == levels[1..][i - 1];
      PointIsPosition(isBid, levels[1..], price, idx - 1);
    }
  }

  lemma {:induction false} PositionIsPoint(isBid: bool, levels: seq<Level>, price: int)
    requires Sorted(isBid, levels)
    ensures InsertionPoint(isBid, levels, price, Position(isBid, levels, price))
  {
    if levels == [] || Rank(isBid, levels[0].price) >= Rank(isBid, price) {
    } else {
      PositionIsPoint(isBid, levels[1..], price);
      assert forall i :: 0 < i < |levels| ==> levels[i] == levels[1..][i - 1];
    }
  }

  // ---------- One side, in place ----------

  class BookSide {
    const isBid: bool
    const buf: array<Level>
    var len: nat

    ghost predicate Valid()
      reads this, buf
    {
      buf.Length == MAX_DEPTH && len <= MAX_DEPTH && Sorted(isBid, buf[..len])
    }

    function Levels(): seq<Level>
      requires len <= buf.Length
      reads this, buf
    {
      buf[..len]
    }

    constructor (bid: bool)
      ensures Valid() && isBid == bid && Levels() == [] && fresh(buf)
    {
      isBid, len := bid, 0;
      buf := new Level[MAX_DEPTH](_ => Level(0, 0));
    }

    /** Binary search for the first level not better than the price. */
    method Search(price: int) returns (idx: nat)
      requires Valid()
      ensures idx == Position(isBid, Levels(), price) && InsertionPoint(isBid, Levels(), price, idx)
    {
      var lo, hi := 0, len;
      while lo < hi
        invariant 0 <= lo <= hi <= len
        invariant forall i :: 0 <= i < lo ==> Rank(isBid, buf[..len][i].price) < Rank(isBid, price)
        invariant forall i :: hi <= i < len ==> Rank(isBid, buf[..len][i].price) >= Rank(isBid, price)
      {
        var mid := (lo + hi) / 2;
        assert buf[..len][mid] == buf[mid];
        if Rank(isBid, buf[mid].price) >= Rank(isBid, price) {
          hi := mid;
        } else {
          lo := mid + 1;
        }
      }
      idx := lo;
      PointIsPosition(isBid, Levels(), price, idx);
    }

    /** Moves buf[idx..last] one place to the right. */
    method ShiftRight(idx: nat, last: nat)
      requires idx <= last < buf.Length
      modifies buf
      ensures forall i :: 0 <= i < buf.Length && !(idx < i <= last) ==> buf[i] == old(buf[i])
      ensures forall i :: idx < i <= last ==> buf[i] == old(buf[i - 1])
    {
      var k := last;
      while k > idx
        invariant idx <= k <= last
        invariant forall i :: 0 <= i < buf.Length && !(k < i <= last) ==> buf[i] == old(buf[i])
        invariant forall i :: k < i <= last ==> buf[i] == old(buf[i - 1])
      {
        buf[k] := buf[k - 1];
        k := k - 1;
      }
    }

    /** Moves buf[idx + 1..end] one place to the left. */
    method ShiftLeft(idx: nat, end: nat)
      requires idx < end <= buf.Length
      modifies buf
      ensures forall i :: 0 <= i < buf.Length && !(idx <= i < end - 1) ==> buf[i] == old(buf[i])
      ensures forall i :: idx <= i < end - 1 ==> buf[i] == old(buf[i + 1])
    {
      var k := idx;
      while k < end - 1
        invariant idx <= k <= end - 1
        invariant forall i :: 0 <= i < buf.Length && !(idx <= i < k) ==> buf[i] == old(buf[i])
        invariant forall i :: idx <= i < k ==> buf[i] == old(buf[i + 1])
      {
        buf[k] := buf[k + 1];
        k := k + 1;
      }
    }

    /** An insertion at `idx`, pushing the worst level out when the side is full. */
    method InsertAt(idx: nat, lvl: Level)
      requires buf.Length == MAX_DEPTH && idx <= len <= MAX_DEPTH && idx < MAX_DEPTH
      requires !Exists(buf[..len], lvl.price, idx)
      modifies this`len, buf
      ensures len <= MAX_DEPTH && Levels() == Placed(old(Levels()), lvl, idx)
    {
      ghost var was := Levels();
      if len < MAX_DEPTH {
        len := len + 1;
      }
      ghost var keep := len - 1;
      if idx < len - 1 {
        ShiftRight(idx, len - 1);
      }
      buf[idx] := lvl;
      assert was[idx..|was|] == was[idx..];
      assert Levels() == was[..idx] + [lvl] + was[idx..keep];
    }

    method RemoveAt(idx: nat)
      requires idx < len <= buf.Length
      modifies this`len, buf
      ensures len <= buf.Length && Levels() == old(Levels()[..idx] + Levels()[idx + 1..])
    {
      ghost var was := Levels();
      ShiftLeft(idx, len);
      len := len - 1;
      forall i | 0 <= i < len
        ensures buf[i] == (was[..idx] + was[idx + 1..])[i]
      {
        RemovedAt(was, idx, i);
      }
      assert Levels() == was[..idx] + was[idx + 1..];
    }

    /** applyLevel; `ok` is false where the source indexes past the end of a full side and panics. */
    method ApplyLevel(u: LevelUpdate) returns (ok: bool)
      requires Valid()
      modifies this`len, buf
      ensures Valid()
      ensures var idx := Position(isBid, old(Levels()), u.price);
              && ok == !Overruns(old(Levels()), u, idx)
              && Levels() == if ok then After(old(Levels()), u, idx) else old(Levels())
    {
      hide Sorted, Position;
      ghost var was := Levels();
      var action := if u.action == Update && u.size <= 0 then Delete else u.action;
      var idx := Search(u.price);
      var found := idx < len && buf[idx].price == u.price;
      assert found == Exists(was, u.price, idx);
      ok := true;
      match action {
        case Insert =>
          ok := Place(u, idx, found);
        case Update =>
          ok := Place(u, idx, found);
        case Delete =>
          if found {
            RemoveAt(idx);
          }
        case OtherAction =>
      }
      if ok {
        AfterSorted(isBid, was, u, idx);
      }
    }

    method Place(u: LevelUpdate, idx: nat, found: bool) returns (ok: bool)
      requires buf.Length == MAX_DEPTH && idx <= len <= MAX_DEPTH && found == Exists(buf[..len], u.price, idx)
      modifies this`len, buf
      ensures len <= MAX_DEPTH && ok == (found || idx < MAX_DEPTH)
      ensures Levels() == if ok then Placed(old(Levels()), Level(u.price, u.size), idx) else old(Levels())
    {
      ok := true;
      if found {
        buf[idx] := buf[idx].(quantity := u.size);
      } else if idx < MAX_DEPTH {
        InsertAt(idx, Level(u.price, u.size));
      } else {
        ok := false;
      }
    }
  }

  lemma {:induction false} AfterSorted(isBid: bool, levels: seq<Level>, u: LevelUpdate, idx: nat)
    requires Sorted(isBid, levels) && |levels| <= MAX_DEPTH
    requires InsertionPoint(isBid, levels, u.price, idx) && !Overruns(levels, u, idx)
    ensures Sorted(isBid, After(levels, u, idx)) && |After(levels, u, idx)| <= MAX_DEPTH
  {
    hide After, Sorted;
    ToMapExact(isBid, levels);
    AfterIsBest(isBid, levels, u, idx, ToMap(levels));
  }

  // ---------- The whole book ----------

  datatype Increment = Increment(sequence: int, timestamp: int, updates: seq<LevelUpdate>)
  datatype Outcome = Accepted | OldSequence | SequenceGap | Panicked
  datatype Sides = Sides(bids: seq<Level>, asks: seq<Level>)
  datatype Book = Book(sequence: int, timestamp: int, sides: Sides)

  const FRESH := Book(0, 0, Sides([], []))

  ghost predicate Kept(isBid: bool, levels: seq<Level>)
  {
    Sorted(isBid, levels) && |levels| <= MAX_DEPTH
  }

  ghost predicate InOrder(s: Sides)
  {
    Kept(true, s.bids) && Kept(false, s.asks)
  }

  predicate FailsOn(isBid: bool, levels: seq<Level>, u: LevelUpdate)
  {
    Overruns(levels, u, Position(isBid, levels, u.price))
  }

  predicate Fails(s: Sides, u: LevelUpdate)
  {
    match u.side
    case Bid => FailsOn(true, s.bids, u)
    case Ask => FailsOn(false, s.asks, u)
    case OtherSide => false
  }

  ghost function SideAfter(isBid: bool, levels: seq<Level>, u: LevelUpdate): (now: seq<Level>)
    requires Kept(isBid, levels) && !FailsOn(isBid, levels, u)
    ensures Kept(isBid, now) && IsBest(isBid, now, Changed(ToMap(levels), u), MAX_DEPTH)
  {
    var idx := Position(isBid, levels, u.price);
    PositionIsPoint(isBid, levels, u.price);
    AfterSorted(isBid, levels, u, idx);
    ToMapExact(isBid, levels);
    AfterIsBest(isBid, levels, u, idx, ToMap(levels));
    After(levels, u, idx)
  }

  ghost function Updated(s: Sides, u: LevelUpdate): (r: Sides)
    requires InOrder(s) && !Fails(s, u)
    ensures InOrder(r)
  {
    match u.side
    case Bid => s.(bids := SideAfter(true, s.bids, u))
    case Ask => s.(asks := SideAfter(false, s.asks, u))
    case OtherSide => s
  }

  // ---------- An update, in prices ----------

  /** Bids fall and asks rise. */
  lemma {:induction false} PriceOrder(s: Sides)
    ensures InOrder(s) <==>
            && |s.bids| <= MAX_DEPTH && (forall i, j :: 0 <= i < j < |s.bids| ==> s.bids[i].price > s.bids[j].price)
            && |s.asks| <= MAX_DEPTH && (forall i, j :: 0 <= i < j < |s.asks| ==> s.asks[i].price < s.asks[j].price)
  {
    assert Sorted(true, s.bids) <==> forall i, j :: 0 <= i < j < |s.bids| ==> s.bids[i].price > s.bids[j].price;
    assert Sorted(false, s.asks) <==> forall i, j :: 0 <= i < j < |s.asks| ==> s.asks[i].price < s.asks[j].price;
  }

  /** The update sets a quantity, rather than clearing a level or doing nothing. */
  predicate Sets(u: LevelUpdate)
  {
    u.action == Insert || (u.action == Update && u.size > 0)
  }

  lemma {:induction false} FailsOnIff(isBid: bool, levels: seq<Level>, u: LevelUpdate)
    requires Kept(isBid, levels)
    ensures FailsOn(isBid, levels, u) <==> Sets(u) && |levels| == MAX_DEPTH && AllBetter(isBid, levels, u.price)
  {
    PositionIsPoint(isBid, levels, u.price);
    if AllBetter(isBid, levels, u.price) {
      PointIsPosition(isBid, levels, u.price, |levels|);
    }
  }

  lemma {:induction false} BestHolds(isBid: bool, levels: seq<Level>, book: map<int, int>, n: nat, lvl: Level)
    requires IsBest(isBid, levels, book, n)
    ensures lvl in levels ==> lvl.price in book && book[lvl.price] == lvl.quantity
    ensures lvl.price in book && book[lvl.price] == lvl.quantity && lvl !in levels ==> |levels| == n && AllBetter(isBid, levels, lvl.price)
  {
    if lvl.price in book && book[lvl.price] == lvl.quantity && Listed(levels, lvl.price) {
      var i :| 0 <= i < |levels| && levels[i].price == lvl.price;
      assert levels[i] == lvl;
    }
  }

  lemma {:induction false} ExactHolds(levels: seq<Level>, book: map<int, int>, lvl: Level)
    requires Exact(levels, book)
    ensures lvl in levels <==> lvl.price in book && book[lvl.price] == lvl.quantity
  {
    if lvl.price in book && book[lvl.price] == lvl.quantity {
      assert Listed(levels, lvl.price);
      var i :| 0 <= i < |levels| && levels[i].price == lvl.price;
      assert levels[i] == lvl;
    }
  }

  /** What an update of one side does to any one level. */
  lemma {:induction false} SideUpdate(isBid: bool, levels: seq<Level>, u: LevelUpdate, lvl: Level)
    requires Kept(isBid, levels) && !FailsOn(isBid, levels, u)
    ensures var now := SideAfter(isBid, levels, u);
            && (u.action == OtherAction ==> now == levels)
            && (u.action != OtherAction && lvl.price == u.price ==> (lvl in now <==> Sets(u) && lvl.quantity == u.size))
            && (lvl.price != u.price && lvl in now ==> lvl in levels)
            && (lvl.price != u.price && lvl in levels && lvl !in now ==> Sets(u) && |now| == MAX_DEPTH && AllBetter(isBid, now, lvl.price))
  {
    hide IsBest, Exact, Sorted, ToMap, AllBetter, Position;
    var now, book := SideAfter(isBid, levels, u), ToMap(levels);
    ToMapExact(isBid, levels);
    BestHolds(isBid, now, Changed(book, u), MAX_DEPTH, lvl);
    ExactHolds(levels, book, lvl);
    var idx := Position(isBid, levels, u.price);
    if Sets(u) {
      assert now[idx] == Level(u.price, u.size);
    }
  }

  /** An ask update leaves the bids alone; a price it pushes off is above every ask that stays. */
  lemma {:induction false} AskUpdate(s: Sides, u: LevelUpdate, lvl: Level)
    requires InOrder(s) && u.side == Ask
    ensures Fails(s, u) <==> Sets(u) && |s.asks| == MAX_DEPTH && forall i :: 0 <= i < |s.asks| ==> s.asks[i].price < u.price
    ensures !Fails(s, u) ==>
              var r := Updated(s, u);
              && r.bids == s.bids
              && (u.action == OtherAction ==> r == s)
              && (u.action != OtherAction && lvl.price == u.price ==> (lvl in r.asks <==> Sets(u) && lvl.quantity == u.size))
              && (lvl.price != u.price && lvl in r.asks ==> lvl in s.asks)
              && (lvl.price != u.price && lvl in s.asks && lvl !in r.asks ==>
                    Sets(u) && |r.asks| == MAX_DEPTH && forall i :: 0 <= i < |r.asks| ==> r.asks[i].price < lvl.price)
  {
    hide Sorted, IsBest, FailsOn;
    FailsOnIff(false, s.asks, u);
    if !Fails(s, u) {
      SideUpdate(false, s.asks, u, lvl);
    }
  }

  /** A bid update leaves the asks alone; a price it pushes off is below every bid that stays. */
  lemma {:induction false} BidUpdate(s: Sides, u: LevelUpdate, lvl: Level)
    requires InOrder(s) && u.side == Bid
    ensures Fails(s, u) <==> Sets(u) && |s.bids| == MAX_DEPTH && forall i :: 0 <= i < |s.bids| ==> s.bids[i].price > u.price
    ensures !Fails(s, u) ==>
              var r := Updated(s, u);
              && r.asks == s.asks
              && (u.action == OtherAction ==> r == s)
              && (u.action != OtherAction && lvl.price == u.price ==> (lvl in r.bids <==> Sets(u) && lvl.quantity == u.size))
              && (lvl.price != u.price && lvl in r.bids ==> lvl in s.bids)
              && (lvl.price != u.price && lvl in s.bids && lvl !in r.bids ==>
                    Sets(u) && |r.bids| == MAX_DEPTH && forall i :: 0 <= i < |r.bids| ==> r.bids[i].price > lvl.price)
  {
    hide Sorted, IsBest, FailsOn;
    FailsOnIff(true, s.bids, u);
    if !Fails(s, u) {
      SideUpdate(true, s.bids, u, lvl);
    }
  }

  /** An update of neither side does nothing. */
  lemma {:induction false} OtherUpdate(s: Sides, u: LevelUpdate)
    requires InOrder(s) && u.side == OtherSide
    ensures !Fails(s, u) && Updated(s, u) == s
  {
  }

  /** The updates in order, up to the first that fails; and whether none did. */
  ghost function UpdatedAll(s: Sides, us: seq<LevelUpdate>): (r: (Sides, bool))
    requires InOrder(s)
    ensures InOrder(r.0)
    decreases |us|
  {
    if us == [] then (s, true)
    else if Fails(s, us[0]) then (s, false)
    else UpdatedAll(Updated(s, us[0]), us[1..])
  }

  /** Apply: only the next sequence number is taken, and a book that has none yet takes any. */
  ghost function Applied(b: Book, inc: Increment): (r: (Book, Outcome))
    requires InOrder(b.sides)
    ensures InOrder(r.0.sides)
    ensures r.1 in {OldSequence, SequenceGap} <==> b.sequence != 0 && inc.sequence != b.sequence + 1
    ensures r.1 in {OldSequence, SequenceGap} ==> r.0 == b && (r.1 == OldSequence <==> inc.sequence <= b.sequence)
  {
    if b.sequence != 0 && inc.sequence <= b.sequence then (b, OldSequence)
    else if b.sequence != 0 && inc.sequence != b.sequence + 1 then (b, SequenceGap)
    else
      var (s, ok) := UpdatedAll(b.sides, inc.updates);
      if ok then (Book(inc.sequence, inc.timestamp, s), Accepted)
      else (Book(if b.sequence == 0 then inc.sequence else b.sequence, b.timestamp, s), Panicked)
  }

  /** A stream of increments, up to a panic if there is one: the book, what was accepted, and what panicked. */
  ghost function Streamed(b: Book, incs: seq<Increment>): (r: (Book, seq<Increment>, seq<Increment>))
    requires InOrder(b.sides)
    ensures InOrder(r.0.sides)
    decreases |incs|
  {
    if incs == [] then (b, [], [])
    else
      var (now, outcome) := Applied(b, incs[0]);
      if outcome == Panicked then (now, [], [incs[0]])
      else
        var (end, taken, failed) := Streamed(now, incs[1..]);
        (end, if outcome == Accepted then [incs[0]] + taken else taken, failed)
  }

  function AllUpdates(incs: seq<Increment>): seq<LevelUpdate>
  {
    if incs == [] then [] else incs[0].updates + AllUpdates(incs[1..])
  }

  lemma {:induction false} UpdatedAllAppend(s: Sides, us: seq<LevelUpdate>, vs: seq<LevelUpdate>)
    requires InOrder(s) && UpdatedAll(s, us).1
    ensures UpdatedAll(s, us + vs) == UpdatedAll(UpdatedAll(s, us).0, vs)
    decreases |us|
  {
    hide InOrder, Fails, Updated;
    if us == [] {
      assert us + vs == vs;
    } else {
      assert (us + vs)[1..] == us[1..] + vs;
      UpdatedAllAppend(Updated(s, us[0]), us[1..], vs);
    }
  }

  /** What is accepted is consecutive, and the book is at the last of it. */
  lemma {:induction false} StreamConsecutive(b: Book, incs: seq<Increment>)
    requires InOrder(b.sides) && b.sequence >= 0 && (forall i :: 0 <= i < |incs| ==> incs[i].sequence > 0)
    ensures var (end, taken, failed) := Streamed(b, incs);
            && (forall i :: 0 <= i < |taken| ==> taken[i].sequence == (if b.sequence > 0 then b.sequence + 1 else taken[0].sequence) + i)
            && end.timestamp == (if taken == [] then b.timestamp else taken[|taken| - 1].timestamp)
            && end.sequence == (if taken != [] then taken[|taken| - 1].sequence
                                else if b.sequence == 0 && failed != [] then failed[0].sequence else b.sequence)
    decreases |incs|
  {
    hide InOrder, UpdatedAll;
    if incs == [] {
    } else {
      var (now, outcome) := Applied(b, incs[0]);
      if outcome != Panicked {
        StreamConsecutive(now, incs[1..]);
      }
    }
  }

  /** The sides are what the accepted updates make of them, and then the panicking increment, if any. */
  lemma {:induction false} StreamSides(b: Book, incs: seq<Increment>)
    requires InOrder(b.sides)
    ensures var (end, taken, failed) := Streamed(b, incs);
            && UpdatedAll(b.sides, AllUpdates(taken)).1
            && UpdatedAll(b.sides, AllUpdates(taken + failed)) == (end.sides, failed == [])
    decreases |incs|
  {
    hide InOrder, UpdatedAll, AllUpdates;
    NoUpdates(b.sides);
    if incs == [] {
      assert incs + incs == incs;
    } else {
      var (now, outcome) := Applied(b, incs[0]);
      if outcome == Panicked {
        AllUpdatesCons(incs[0], []);
        assert [incs[0]] + [] == [incs[0]] && [] + [incs[0]] == [incs[0]];
      } else {
        StreamSides(now, incs[1..]);
        if outcome == Accepted {
          var (_, taken, failed) := Streamed(now, incs[1..]);
          AllUpdatesCons(incs[0], taken);
          AllUpdatesCons(incs[0], taken + failed);
          assert [incs[0]] + (taken + failed) == [incs[0]] + taken + failed;
          UpdatedAllAppend(b.sides, incs[0].updates, AllUpdates(taken));
          UpdatedAllAppend(b.sides, incs[0].updates, AllUpdates(taken + failed));
        }
      }
    }
  }

  /**
   Every stream of positive sequence numbers, on a fresh book or any later one: what is accepted is
   consecutive, and the sides are what the accepted updates alone make of them, followed, if an
   increment panics, by as many of its updates as came before the failing one.
   */
  lemma {:induction false} AnyStream(b: Book, incs: seq<Increment>)
    requires InOrder(b.sides) && b.sequence >= 0 && (forall i :: 0 <= i < |incs| ==> incs[i].sequence > 0)
    ensures var (end, taken, failed) := Streamed(b, incs);
            && (forall i :: 0 <= i < |taken| ==> taken[i].sequence == (if b.sequence > 0 then b.sequence + 1 else taken[0].sequence) + i)
            && end.timestamp == (if taken == [] then b.timestamp else taken[|taken| - 1].timestamp)
            && end.sequence == (if taken != [] then taken[|taken| - 1].sequence
                                else if b.sequence == 0 && failed != [] then failed[0].sequence else b.sequence)
            && UpdatedAll(b.sides, AllUpdates(taken)).1
            && UpdatedAll(b.sides, AllUpdates(taken + failed)) == (end.sides, failed == [])
  {
    hide InOrder, UpdatedAll, AllUpdates, Streamed;
    StreamConsecutive(b, incs);
    StreamSides(b, incs);
  }

  // ---------- A panic is reachable ----------

  /** `k` levels, each one tick worse than the one before. */
  function Ladder(k: nat): seq<Level>
  {
    seq(k, i => Level(-i, 1))
  }

  function Rungs(k: nat): seq<LevelUpdate>
  {
    seq(k, i => LevelUpdate(Insert, Bid, -i, 1))
  }

  lemma {:induction false} LadderPosition(k: nat)
    ensures Sorted(true, Ladder(k)) && |Ladder(k)| == k
    ensures Position(true, Ladder(k), 0 - k) == k && !Exists(Ladder(k), 0 - k, k)
  {
    PointIsPosition(true, Ladder(k), 0 - k, k);
  }

  lemma {:induction false} NextRung(k: nat)
    requires k < MAX_DEPTH
    ensures var s, u := Sides(Ladder(k), []), LevelUpdate(Insert, Bid, 0 - k, 1);
            InOrder(s) && !Fails(s, u) && Updated(s, u) == Sides(Ladder(k + 1), [])
  {
    LadderPosition(k);
    hide Sorted, IsBest, Position, Exists;
    var rungs := Ladder(k);
    assert Sorted(false, []) by { NothingSorted(); }
    assert rungs[..k] + [Level(0 - k, 1)] + rungs[k..] == Ladder(k + 1);
  }

  lemma {:induction false} NothingSorted()
    ensures Sorted(false, []) && InOrder(FRESH.sides)
  {
  }

  /** Falling prices fill a side, one level each. */
  lemma {:induction false} RungsFill(k: nat)
    requires k <= MAX_DEPTH
    ensures UpdatedAll(FRESH.sides, Rungs(k)) == (Sides(Ladder(k), []), true)
  {
    hide InOrder, Fails, Updated;
    if k == 0 {
      assert Rungs(0) == [] && Ladder(0) == [];
    } else {
      RungsFill(k - 1);
      NextRung(k - 1);
      hide UpdatedAll;
      NothingSorted();
      var u := LevelUpdate(Insert, Bid, 0 - (k - 1), 1);
      assert Rungs(k) == Rungs(k - 1) + [u];
      UpdatedAllAppend(FRESH.sides, Rungs(k - 1), [u]);
      OneUpdate(Sides(Ladder(k - 1), []), u);
    }
  }

  lemma {:induction false} OneUpdate(s: Sides, u: LevelUpdate)
    requires InOrder(s)
    ensures UpdatedAll(s, [u]) == if Fails(s, u) then (s, false) else (Updated(s, u), true)
  {
    assert [u][1..] == [];
    if !Fails(s, u) {
      NoUpdates(Updated(s, u));
    }
  }

  /** The 201st falling bid panics, on a book that was fresh. */
  lemma {:induction false} PanicReachable()
    ensures Applied(FRESH, Increment(1, 0, Rungs(MAX_DEPTH + 1))).1 == Panicked
  {
    var u := Rungs(MAX_DEPTH + 1)[MAX_DEPTH];
    RungsFill(MAX_DEPTH);
    LadderPosition(MAX_DEPTH);
    assert Rungs(MAX_DEPTH + 1) == Rungs(MAX_DEPTH) + [u];
    UpdatedAllAppend(FRESH.sides, Rungs(MAX_DEPTH), [u]);
    OneUpdate(Sides(Ladder(MAX_DEPTH), []), u);
  }

  lemma {:induction false} NoUpdates(s: Sides)
    requires InOrder(s)
    ensures UpdatedAll(s, []) == (s, true) && AllUpdates([]) == []
  {
  }

  lemma {:induction false} AllUpdatesCons(inc: Increment, rest: seq<Increment>)
    ensures AllUpdates([inc] + rest) == inc.updates + AllUpdates(rest) && inc.updates + [] == inc.updates
  {
    assert ([inc] + rest)[1..] == rest;
  }

  class OrderBook {
    var sequence: int
    var timestamp: int
    const bids: BookSide
    const asks: BookSide

    ghost predicate Valid()
      reads this, bids, bids.buf, asks, asks.buf
    {
      && bids != asks && bids.buf != asks.buf
      && bids.isBid && !asks.isBid && bids.Valid() && asks.Valid()
    }

    ghost function Contents(): Sides
      requires Valid()
      reads this, bids, bids.buf, asks, asks.buf
      ensures InOrder(Contents())
    {
      Sides(bids.Levels(), asks.Levels())
    }

    ghost function Value(): Book
      requires Valid()
      reads this, bids, bids.buf, asks, asks.buf
    {
      Book(sequence, timestamp, Contents())
    }

    constructor ()
      ensures Valid() && Value() == FRESH && fresh(bids) && fresh(bids.buf) && fresh(asks) && fresh(asks.buf)
    {
      sequence, timestamp := 0, 0;
      bids := new BookSide(true);
      asks := new BookSide(false);
    }

    method UpdateSide(u: LevelUpdate) returns (ok: bool)
      requires Valid()
      modifies bids`len, bids.buf, asks`len, asks.buf
      ensures Valid() && ok == !Fails(old(Contents()), u)
      ensures Contents() == if ok then Updated(old(Contents()), u) else old(Contents())
    {
      ok := true;
      match u.side {
        case Bid => ok := bids.ApplyLevel(u);
        case Ask => ok := asks.ApplyLevel(u);
        case OtherSide =>
      }
    }

    method UpdateAll(updates: seq<LevelUpdate>) returns (ok: bool)
      requires Valid()
      modifies bids`len, bids.buf, asks`len, asks.buf
      ensures Valid() && (Contents(), ok) == UpdatedAll(old(Contents()), updates)
    {
      hide Fails, Updated;
      ok := true;
      var i := 0;
      while i < |updates| && ok
        invariant i <= |updates| && Valid()
        invariant UpdatedAll(old(Contents()), updates) == if ok then UpdatedAll(Contents(), updates[i..]) else (Contents(), false)
      {
        assert updates[i..][1..] == updates[i + 1..];
        ok := UpdateSide(updates[i]);
        i := i + 1;
      }
    }

    method Apply(inc: Increment) returns (outcome: Outcome)
      requires Valid()
      modifies this, bids`len, bids.buf, asks`len, asks.buf
      ensures Valid() && (Value(), outcome) == Applied(old(Value()), inc)
      ensures forall i, j :: 0 <= i < j < |Contents().bids| ==> Contents().bids[i].price > Contents().bids[j].price
      ensures forall i, j :: 0 <= i < j < |Contents().asks| ==> Contents().asks[i].price < Contents().asks[j].price
    {
      hide UpdatedAll;
      if sequence == 0 {
        sequence := inc.sequence;
      } else if inc.sequence <= sequence {
        return OldSequence;
      } else if inc.sequence != sequence + 1 {
        return SequenceGap;
      }
      var ok := UpdateAll(inc.updates);
      if !ok {
        return Panicked;
      }
      sequence := inc.sequence;
      timestamp := inc.timestamp;
      outcome := Accepted;
    }
  }
}
