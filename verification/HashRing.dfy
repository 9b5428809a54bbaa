/**
 The consistent hash ring (internal/routing/ring.go): each node owns several points on a
 64-bit circle, and a key belongs to the node that owns the next point clockwise.
 */
module HashRing {
  import opened Bytes
  import opened Collections

  type HashString = string -> U64
  type HashBytes = seq<Byte> -> U64

  /** strconv.Itoa for non-negative numbers. */
  function Itoa(n: nat): string
  {
    if n < 10 then [Digit(n)] else Itoa(n / 10) + [Digit(n % 10)]
  }

  function Digit(d: nat): char
    requires d < 10
  {
    "0123456789"[d]
  }

  predicate IsDigit(c: char)
  {
    '0' <= c <= '9'
  }

  /** The number that decimal digits stand for. */
  function Atoi(s: string): nat
    requires forall i :: 0 <= i < |s| ==> IsDigit(s[i])
  {
    if s == [] then 0
    else assert IsDigit(s[|s| - 1]); 10 * Atoi(s[..|s| - 1]) + (s[|s| - 1] as int - '0' as int)
  }

  lemma {:induction false} DigitReads(d: nat)
    requires d < 10
    ensures IsDigit(Digit(d)) && Digit(d) as int - '0' as int == d
  {
  }

  /** The digits read back as the number, and there is no leading zero. */
  lemma {:induction false} ItoaReads(n: nat)
    ensures Itoa(n) != [] && (forall i :: 0 <= i < |Itoa(n)| ==> IsDigit(Itoa(n)[i]))
    ensures Atoi(Itoa(n)) == n && (n > 0 ==> Itoa(n)[0] != '0')
  {
    hide Digit;
    DigitReads(n % 10);
    if n < 10 {
      assert Itoa(n)[..0] == [];
    } else {
      ItoaReads(n / 10);
      assert Itoa(n)[..|Itoa(n)| - 1] == Itoa(n / 10);
    }
  }

  /** What is hashed for virtual node i of `node`. */
  function Label(node: string, i: nat): string
  {
    node + "#" + Itoa(i)
  }

  /** Different virtual nodes have different labels: the last "#" tells where the number begins. */
  lemma {:induction false} LabelInjective(a: string, i: nat, b: string, j: nat)
    requires Label(a, i) == Label(b, j)
    ensures a == b && i == j
  {
    hide Itoa;
    ItoaReads(i);
    ItoaReads(j);
    var s, x, y := Label(a, i), Itoa(i), Itoa(j);
    assert s == a + "#" + x && s == b + "#" + y;
    assert s[|a|] == '#' && s[|b|] == '#';
    if |a| == |b| {
      assert a == s[..|a|] == b && x == s[|a| + 1..] == y;
    }
  }

  /** The point of virtual node i of `node`. */
  function Point(hash: HashString, node: string, i: nat): U64
  {
    hash(Label(node, i))
  }

  /** One of the points of `node` is p. */
  ghost predicate Owns(hash: HashString, vnodes: nat, node: string, p: U64)
  {
    exists i: nat :: i < vnodes && Point(hash, node, i) == p
  }

  /** No two virtual nodes of these nodes share a point. */
  ghost predicate NoCollisions(hash: HashString, vnodes: nat, nodes: set<string>)
  {
    forall a, b, i: nat, j: nat {:trigger Point(hash, a, i), Point(hash, b, j)} ::
      a in nodes && b in nodes && i < vnodes && j < vnodes && Point(hash, a, i) == Point(hash, b, j) ==> a == b && i == j
  }

  /** A point is shared exactly where the hash maps two different labels to one value. */
  lemma {:induction false} CollisionsAreTheHash(hash: HashString, vnodes: nat, nodes: set<string>)
    ensures NoCollisions(hash, vnodes, nodes) <==>
            forall a, b, i: nat, j: nat {:trigger Label(a, i), Label(b, j)} ::
              a in nodes && b in nodes && i < vnodes && j < vnodes && Label(a, i) != Label(b, j) ==> hash(Label(a, i)) != hash(Label(b, j))
  {
    hide Label;
    if NoCollisions(hash, vnodes, nodes) {
      forall a, b, i: nat, j: nat | a in nodes && b in nodes && i < vnodes && j < vnodes && Label(a, i) != Label(b, j)
        ensures hash(Label(a, i)) != hash(Label(b, j))
      {
        assert Point(hash, a, i) == Point(hash, b, j) ==> a == b && i == j;
      }
    } else {
      var a, b, i: nat, j: nat :| a in nodes && b in nodes && i < vnodes && j < vnodes
                                  && Point(hash, a, i) == Point(hash, b, j) && !(a == b && i == j);
      if Label(a, i) == Label(b, j) {
        LabelInjective(a, i, b, j);
      }
    }
  }

  // ---------- Who owns a key ----------

  /** The distance from x to p going clockwise. */
  function Clockwise(x: U64, p: U64): (d: nat)
    ensures d < TWO_64 && (x + d == p || x + d == p + TWO_64)
  {
    if p >= x then p - x else p + TWO_64 - x
  }

  /** `node` owns a point that no point of any node precedes, going clockwise from x. */
  ghost predicate IsOwner(hash: HashString, vnodes: nat, nodes: set<string>, x: U64, node: string)
  {
    && node in nodes
    && exists p :: Owns(hash, vnodes, node, p) && Nearest(hash, vnodes, nodes, x, p)
  }

  ghost predicate Nearest(hash: HashString, vnodes: nat, nodes: set<string>, x: U64, p: U64)
  {
    forall m, q :: m in nodes && Owns(hash, vnodes, m, q) ==> Clockwise(x, p) <= Clockwise(x, q)
  }

  lemma {:induction false} ClockwiseInjective(x: U64, p: U64, q: U64)
    requires Clockwise(x, p) == Clockwise(x, q)
    ensures p == q
  {
  }

  lemma {:induction false} OwnsUnique(hash: HashString, vnodes: nat, nodes: set<string>, a: string, b: string, p: U64)
    requires NoCollisions(hash, vnodes, nodes) && a in nodes && b in nodes
    requires Owns(hash, vnodes, a, p) && Owns(hash, vnodes, b, p)
    ensures a == b
  {
  }

  /** Every key has at most one owner. */
  lemma {:induction false} OwnerUnique(hash: HashString, vnodes: nat, nodes: set<string>, x: U64, a: string, b: string)
    requires NoCollisions(hash, vnodes, nodes)
    requires IsOwner(hash, vnodes, nodes, x, a) && IsOwner(hash, vnodes, nodes, x, b)
    ensures a == b
  {
    var p :| Owns(hash, vnodes, a, p) && Nearest(hash, vnodes, nodes, x, p);
    var q :| Owns(hash, vnodes, b, q) && Nearest(hash, vnodes, nodes, x, q);
    ClockwiseInjective(x, p, q);
    OwnsUnique(hash, vnodes, nodes, a, b, p);
  }

  // ---------- Sorted key arrays ----------

  ghost predicate Ascending(keys: seq<U64>)
  {
    forall i, j :: 0 <= i < j < |keys| ==> keys[i] <= keys[j]
  }

  ghost predicate Strict(keys: seq<U64>)
  {
    forall i, j :: 0 <= i < j < |keys| ==> keys[i] < keys[j]
  }

  function Insert(keys: seq<U64>, key: U64): seq<U64>
  {
    var n := |keys| - 1;
    if keys == [] || keys[n] <= key then keys + [key] else Insert(keys[..n], key) + [keys[n]]
  }

  /** sort.Slice on the keys, in ascending order. */
  function Sort(keys: seq<U64>): seq<U64>
  {
    if keys == [] then [] else Insert(Sort(keys[..|keys| - 1]), keys[|keys| - 1])
  }

  lemma {:induction false} InsertIs(keys: seq<U64>, key: U64)
    requires Ascending(keys)
    ensures Ascending(Insert(keys, key)) && multiset(Insert(keys, key)) == multiset(keys) + multiset{key}
  {
    var n := |keys| - 1;
    if keys == [] || keys[n] <= key {
      AscendingAt(keys);
      AscendingSnoc(keys, key);
    } else {
      var r := Insert(keys[..n], key);
      InsertIs(keys[..n], key);
      assert keys == keys[..n] + [keys[n]];
      AscendingAt(keys);
      hide Insert, Ascending;
      forall k | k in r
        ensures k <= keys[n]
      {
        assert k in multiset(r);
        assert k in keys[..n] || k == key;
      }
      AscendingSnoc(r, keys[n]);
    }
  }

  lemma {:induction false} AscendingAt(keys: seq<U64>)
    requires Ascending(keys)
    ensures forall k :: k in keys ==> k <= keys[|keys| - 1]
  {
  }

  lemma {:induction false} AscendingSnoc(keys: seq<U64>, key: U64)
    requires Ascending(keys) && forall k :: k in keys ==> k <= key
    ensures Ascending(keys + [key])
  {
    assert forall i :: 0 <= i < |keys| ==> keys[i] in keys;
  }

  lemma {:induction false} SortIs(keys: seq<U64>)
    ensures Ascending(Sort(keys)) && multiset(Sort(keys)) == multiset(keys)
  {
    if keys == [] {
    } else {
      var n := |keys| - 1;
      SortIs(keys[..n]);
      InsertIs(Sort(keys[..n]), keys[n]);
      assert keys == keys[..n] + [keys[n]];
    }
  }

  lemma {:induction false} DistinctCount(s: seq<U64>, x: U64)
    requires Distinct(s)
    ensures multiset(s)[x] <= 1
  {
    if s == [] {
    } else {
      assert s == [s[0]] + s[1..];
      DistinctCount(s[1..], x);
      if x == s[0] {
        assert x !in s[1..];
      }
    }
  }

  /** Sorting distinct keys gives a strictly ascending array of the same keys. */
  lemma {:induction false} SortedDistinct(keys: seq<U64>, sorted: seq<U64>)
    requires Distinct(keys) && Ascending(sorted) && multiset(sorted) == multiset(keys)
    ensures Strict(sorted) && forall k :: k in sorted <==> k in keys
  {
    forall i, j | 0 <= i < j < |sorted|
      ensures sorted[i] != sorted[j]
    {
      DistinctCount(keys, sorted[i]);
      var l, r := sorted[..j], sorted[j..];
      assert sorted == l + r && l[i] == sorted[i] && r[0] == sorted[j];
      assert sorted[i] in multiset(l) && sorted[j] in multiset(r);
    }
    forall k ensures k in sorted <==> k in keys {
      assert k in sorted <==> k in multiset(sorted);
      assert k in keys <==> k in multiset(keys);
    }
  }

  /** sort.Search for the first key not below x. */
  method SearchKeys(keys: seq<U64>, x: U64) returns (idx: nat)
    requires Ascending(keys)
    ensures idx <= |keys|
    ensures forall i :: 0 <= i < idx ==> keys[i] < x
    ensures forall i :: idx <= i < |keys| ==> keys[i] >= x
  {
    var lo, hi := 0, |keys|;
    while lo < hi
      invariant 0 <= lo <= hi <= |keys|
      invariant forall i :: 0 <= i < lo ==> keys[i] < x
      invariant forall i :: hi <= i < |keys| ==> keys[i] >= x
    {
      var mid := (lo + hi) / 2;
      if keys[mid] >= x { hi := mid; } else { lo := mid + 1; }
    }
    idx := lo;
  }

  lemma {:induction false} HasElement(s: seq<U64>)
    requires s != []
    ensures exists k :: k in s
  {
    assert s[0] in s;
  }

  /** Two strictly ascending arrays with the same keys are the same array. */
  lemma {:induction false} StrictDetermined(a: seq<U64>, b: seq<U64>)
    requires Strict(a) && Strict(b) && forall k :: k in a <==> k in b
    ensures a == b
    decreases |a|
  {
    if a != [] { HasElement(a); }
    if b != [] { HasElement(b); }
    if a == [] || b == [] {
    } else {
      assert a[0] in b && b[0] in a;
      var i :| 0 <= i < |b| && b[i] == a[0];
      var j :| 0 <= j < |a| && a[j] == b[0];
      assert a[0] == b[0];
      var a', b' := a[1..], b[1..];
      forall k ensures k in a' <==> k in b' {
        if k in a' { assert k in a && k != a[0]; }
        if k in b' { assert k in b && k != b[0]; }
      }
      StrictDetermined(a', b');
    }
  }

  // ---------- The layout ----------

  /** The key array and the owner map lay out exactly the points of these nodes. */
  ghost predicate Laid(keys: seq<U64>, owners: map<U64, string>, hash: HashString, vnodes: nat, nodes: set<string>)
  {
    && Strict(keys)
    && (forall k :: k in keys <==> k in owners)
    && (forall k :: k in owners ==> owners[k] in nodes && Owns(hash, vnodes, owners[k], k))
    && (forall n, i: nat {:trigger Point(hash, n, i)} :: n in nodes && i < vnodes ==> Point(hash, n, i) in owners)
  }

  /** The node set alone determines the key array and the owner of every point. */
  lemma {:induction false} LaidDetermined(
    keys: seq<U64>, owners: map<U64, string>, keys': seq<U64>, owners': map<U64, string>,
    hash: HashString, vnodes: nat, nodes: set<string>)
    requires NoCollisions(hash, vnodes, nodes)
    requires Laid(keys, owners, hash, vnodes, nodes) && Laid(keys', owners', hash, vnodes, nodes)
    ensures keys == keys' && owners == owners'
  {
    forall k
      ensures k in owners <==> k in owners'
      ensures k in owners && k in owners' ==> owners[k] == owners'[k]
    {
      if k in owners {
        var i: nat :| i < vnodes && Point(hash, owners[k], i) == k;
        assert k in owners';
        OwnsUnique(hash, vnodes, nodes, owners[k], owners'[k], k);
      }
      if k in owners' {
        var i: nat :| i < vnodes && Point(hash, owners'[k], i) == k;
        assert k in owners;
      }
    }
    StrictDetermined(keys, keys');
  }

  /** The successor of x in the key array, wrapping around, belongs to the owner of x. */
  lemma {:induction false} SuccessorOwns(
    keys: seq<U64>, owners: map<U64, string>, hash: HashString, vnodes: nat, nodes: set<string>, x: U64, idx: nat)
    requires Laid(keys, owners, hash, vnodes, nodes) && keys != [] && idx <= |keys|
    requires forall i :: 0 <= i < idx ==> keys[i] < x
    requires forall i :: idx <= i < |keys| ==> keys[i] >= x
    ensures var p := keys[if idx == |keys| then 0 else idx]; p in owners && IsOwner(hash, vnodes, nodes, x, owners[p])
  {
    var p := keys[if idx == |keys| then 0 else idx];
    assert p in keys;
    forall m, q | m in nodes && Owns(hash, vnodes, m, q)
      ensures Clockwise(x, p) <= Clockwise(x, q)
    {
      assert q in owners;
      var j :| 0 <= j < |keys| && keys[j] == q;
    }
    assert Nearest(hash, vnodes, nodes, x, p);
  }

  datatype Op = Add(node: string) | Remove(node: string)

  function Members(start: set<string>, ops: seq<Op>): set<string>
  {
    if ops == [] then start
    else
      var before := Members(start, ops[..|ops| - 1]);
      match ops[|ops| - 1]
      case Add(n) => before + {n}
      case Remove(n) => before - {n}
  }

  // ---------- What joins and departures do, for any hash ----------

  datatype State = State(keys: seq<U64>, owners: map<U64, string>, present: set<string>)

  const NO_NODES := State([], map[], {})

  function Points(hash: HashString, node: string, n: nat): seq<U64>
  {
    if n == 0 then [] else Points(hash, node, n - 1) + [Point(hash, node, n - 1)]
  }

  function Owned(owners: map<U64, string>, hash: HashString, node: string, n: nat): map<U64, string>
  {
    if n == 0 then owners else Owned(owners, hash, node, n - 1)[Point(hash, node, n - 1) := node]
  }

  function Joined(hash: HashString, vnodes: nat, s: State, node: string): State
  {
    if node in s.present then s
    else State(Sort(s.keys + Points(hash, node, vnodes)), Owned(s.owners, hash, node, vnodes), s.present + {node})
  }

  /** A missing entry of a Go map reads as "". */
  function OwnerOf(owners: map<U64, string>, k: U64): string
  {
    if k in owners then owners[k] else ""
  }

  /** Filters out the keys of one node, deleting them from the owner map on the way. */
  function Dropped(keys: seq<U64>, owners: map<U64, string>, node: string): (seq<U64>, map<U64, string>)
  {
    if keys == [] then ([], owners)
    else
      var n := |keys| - 1;
      var (kept, left) := Dropped(keys[..n], owners, node);
      if OwnerOf(left, keys[n]) == node then (kept, left - {keys[n]}) else (kept + [keys[n]], left)
  }

  function Left(s: State, node: string): State
  {
    if node !in s.present then s
    else var (kept, left) := Dropped(s.keys, s.owners, node); State(kept, left, s.present - {node})
  }

  function Step(hash: HashString, vnodes: nat, s: State, op: Op): State
  {
    match op
    case Add(n) => Joined(hash, vnodes, s, n)
    case Remove(n) => Left(s, n)
  }

  function Ran(hash: HashString, vnodes: nat, ops: seq<Op>): State
  {
    if ops == [] then NO_NODES
    else
      Step(hash, vnodes, Ran(hash, vnodes, ops[..|ops| - 1]), ops[|ops| - 1])
  }

  ghost predicate IsLaid(s: State, hash: HashString, vnodes: nat)
  {
    Laid(s.keys, s.owners, hash, vnodes, s.present)
  }

  lemma {:induction false} PointsAre(hash: HashString, node: string, n: nat)
    ensures |Points(hash, node, n)| == n && forall i: nat :: i < n ==> Points(hash, node, n)[i] == Point(hash, node, i)
  {
    if n == 0 {
    } else {
      PointsAre(hash, node, n - 1);
    }
  }

  lemma {:induction false} OwnsStep(hash: HashString, n: nat, node: string, k: U64)
    ensures Owns(hash, n + 1, node, k) <==> Owns(hash, n, node, k) || k == Point(hash, node, n)
  {
    if k == Point(hash, node, n) {
      assert Owns(hash, n + 1, node, k);
    }
  }

  lemma {:induction false} OwnedAt(owners: map<U64, string>, hash: HashString, node: string, n: nat, k: U64)
    ensures var now := Owned(owners, hash, node, n);
            && (k in now <==> k in owners || Owns(hash, n, node, k))
            && (k in now ==> now[k] == if Owns(hash, n, node, k) then node else owners[k])
  {
    hide Owns, Point;
    if n == 0 {
      OwnsNothing(hash, node, k);
    } else {
      OwnedAt(owners, hash, node, n - 1, k);
      OwnsStep(hash, n - 1, node, k);
    }
  }

  lemma {:induction false} OwnsNothing(hash: HashString, node: string, k: U64)
    ensures !Owns(hash, 0, node, k)
  {
  }

  lemma {:induction false} PointsHave(hash: HashString, node: string, n: nat, k: U64)
    ensures k in Points(hash, node, n) <==> Owns(hash, n, node, k)
  {
    var points := Points(hash, node, n);
    PointsAre(hash, node, n);
    if k in points {
      var i :| 0 <= i < |points| && points[i] == k;
      assert Point(hash, node, i) == k;
    }
    if Owns(hash, n, node, k) {
      var i: nat :| i < n && Point(hash, node, i) == k;
      assert points[i] == k;
    }
  }

  lemma {:induction false} JoinedLaid(hash: HashString, vnodes: nat, universe: set<string>, s: State, node: string)
    requires NoCollisions(hash, vnodes, universe) && s.present <= universe && node in universe && IsLaid(s, hash, vnodes)
    ensures IsLaid(Joined(hash, vnodes, s, node), hash, vnodes)
  {
    if node !in s.present {
      hide NoCollisions, Points, Sort, Strict, Ascending, Owned, Distinct, Owns, Point;
      var now := Joined(hash, vnodes, s, node);
      JoinedKeys(hash, vnodes, universe, s, node);
      forall k
        ensures k in now.owners ==> now.owners[k] in now.present && Owns(hash, vnodes, now.owners[k], k)
      {
        OwnedAt(s.owners, hash, node, vnodes, k);
      }
      forall n, i: nat | n in now.present && i < vnodes
        ensures Point(hash, n, i) in now.owners
      {
        OwnedAt(s.owners, hash, node, vnodes, Point(hash, n, i));
        PointOwned(hash, vnodes, n, i);
      }
    }
  }

  lemma {:induction false} JoinedKeys(hash: HashString, vnodes: nat, universe: set<string>, s: State, node: string)
    requires NoCollisions(hash, vnodes, universe) && s.present <= universe && node in universe && node !in s.present
    requires IsLaid(s, hash, vnodes)
    ensures var now := Joined(hash, vnodes, s, node);
            Strict(now.keys) && forall k :: k in now.keys <==> k in now.owners
  {
    hide NoCollisions, Points, Sort, Strict, Ascending, Owned, Distinct, Owns, Point;
    var now := Joined(hash, vnodes, s, node);
    var added := Points(hash, node, vnodes);
    JoinedDistinct(hash, vnodes, universe, s, node);
    SortIs(s.keys + added);
    SortedDistinct(s.keys + added, now.keys);
    forall k
      ensures k in now.keys <==> k in now.owners
    {
      PointsHave(hash, node, vnodes, k);
      OwnedAt(s.owners, hash, node, vnodes, k);
    }
  }

  lemma {:induction false} PointOwned(hash: HashString, vnodes: nat, node: string, i: nat)
    requires i < vnodes
    ensures Owns(hash, vnodes, node, Point(hash, node, i))
  {
  }

  lemma {:induction false} JoinedDistinct(hash: HashString, vnodes: nat, universe: set<string>, s: State, node: string)
    requires NoCollisions(hash, vnodes, universe) && s.present <= universe && node in universe && node !in s.present
    requires IsLaid(s, hash, vnodes)
    ensures Distinct(s.keys + Points(hash, node, vnodes))
  {
    var added := Points(hash, node, vnodes);
    PointsAre(hash, node, vnodes);
    forall i, j: nat | 0 <= i < |s.keys| && j < vnodes
      ensures s.keys[i] != added[j]
    {
      FreshPoint(hash, vnodes, universe, s.present, s.owners, node, j);
      assert s.keys[i] in s.keys;
    }
    forall i: nat, j: nat | i < j < vnodes
      ensures added[i] != added[j]
    {
      FreshPoint(hash, vnodes, universe, s.present, s.owners, node, j);
    }
  }

  lemma {:induction false} StrictSnoc(keys: seq<U64>, key: U64)
    requires Strict(keys) && forall k :: k in keys ==> k < key
    ensures Strict(keys + [key])
  {
    assert forall i :: 0 <= i < |keys| ==> keys[i] in keys;
  }

  /** On keys without repeats, dropping a node removes its points and nothing else. */
  lemma {:induction false} DroppedStrict(keys: seq<U64>, owners: map<U64, string>, node: string)
    requires Strict(keys) && forall k :: k in keys ==> k in owners
    ensures var (kept, left) := Dropped(keys, owners, node);
            && Strict(kept) && (forall k :: k in kept <==> k in keys && owners[k] != node)
            && (forall k :: k in left <==> k in owners && (k in keys ==> owners[k] != node))
            && (forall k :: k in left ==> left[k] == owners[k])
  {
    if keys == [] {
    } else {
      var n := |keys| - 1;
      StrictInit(keys);
      hide Strict;
      DroppedStrict(keys[..n], owners, node);
      var (kept, left) := Dropped(keys[..n], owners, node);
      StrictSnoc(kept, keys[n]);
    }
  }

  lemma {:induction false} StrictInit(keys: seq<U64>)
    requires Strict(keys) && keys != []
    ensures var n := |keys| - 1;
            && Strict(keys[..n]) && keys[n] !in keys[..n] && (forall k :: k in keys <==> k in keys[..n] || k == keys[n])
            && forall k :: k in keys[..n] ==> k < keys[n]
  {
    var n := |keys| - 1;
    assert keys == keys[..n] + [keys[n]];
  }

  lemma {:induction false} LeftLaid(hash: HashString, vnodes: nat, s: State, node: string)
    requires NoCollisions(hash, vnodes, s.present) && IsLaid(s, hash, vnodes)
    ensures IsLaid(Left(s, node), hash, vnodes)
  {
    if node in s.present {
      DroppedStrict(s.keys, s.owners, node);
      KeepsOthers(hash, vnodes, s.present, s.owners, Left(s, node).owners, node);
    }
  }

  ghost predicate Within(ops: seq<Op>, universe: set<string>)
  {
    forall i :: 0 <= i < |ops| ==> ops[i].node in universe
  }

  lemma {:induction false} RanLaid(hash: HashString, vnodes: nat, universe: set<string>, ops: seq<Op>)
    requires NoCollisions(hash, vnodes, universe) && Within(ops, universe)
    ensures var s := Ran(hash, vnodes, ops); s.present == Members({}, ops) <= universe && IsLaid(s, hash, vnodes)
  {
    hide Laid, NoCollisions;
    if ops == [] {
      NothingLaid(hash, vnodes);
    } else {
      var n := |ops| - 1;
      RanLaid(hash, vnodes, universe, ops[..n]);
      var before := Ran(hash, vnodes, ops[..n]);
      match ops[n]
      case Add(node) => JoinedLaid(hash, vnodes, universe, before, node);
      case Remove(node) =>
        FewerCollide(hash, vnodes, universe, before.present);
        LeftLaid(hash, vnodes, before, node);
    }
  }

  lemma {:induction false} NothingLaid(hash: HashString, vnodes: nat)
    ensures IsLaid(NO_NODES, hash, vnodes)
  {
  }

  lemma {:induction false} FewerCollide(hash: HashString, vnodes: nat, universe: set<string>, nodes: set<string>)
    requires NoCollisions(hash, vnodes, universe) && nodes <= universe
    ensures NoCollisions(hash, vnodes, nodes)
  {
  }

  /** Two histories that end in the same node set leave equal rings. */
  lemma {:induction false} SameMembersSameRing(hash: HashString, vnodes: nat, universe: set<string>, ops: seq<Op>, ops': seq<Op>)
    requires NoCollisions(hash, vnodes, universe) && Within(ops, universe) && Within(ops', universe)
    requires Members({}, ops) == Members({}, ops')
    ensures Ran(hash, vnodes, ops) == Ran(hash, vnodes, ops')
  {
    hide Laid, NoCollisions, Ran;
    RanLaid(hash, vnodes, universe, ops);
    RanLaid(hash, vnodes, universe, ops');
    var s, s' := Ran(hash, vnodes, ops), Ran(hash, vnodes, ops');
    FewerCollide(hash, vnodes, universe, s.present);
    LaidDetermined(s.keys, s.owners, s'.keys, s'.owners, hash, vnodes, s.present);
  }

  // ---------- Minimal disruption, for any hash ----------

  lemma {:induction false} NextUnique(keys: seq<U64>, x: U64, p: U64, q: U64)
    requires IsNext(keys, x, p) && IsNext(keys, x, q)
    ensures p == q
  {
    ClockwiseInjective(x, p, q);
  }

  lemma {:induction false} SortKeeps(keys: seq<U64>, k: U64)
    ensures k in Sort(keys) <==> k in keys
  {
    SortIs(keys);
    assert k in Sort(keys) <==> k in multiset(Sort(keys));
    assert k in keys <==> k in multiset(keys);
  }

  /** A join moves a lookup to the new node or not at all, even where points collide. */
  lemma {:induction false} AddMovesOnlyToNew(hash: HashString, vnodes: nat, s: State, n: string, x: U64, p: U64, q: U64)
    requires IsNext(s.keys, x, p) && IsNext(Joined(hash, vnodes, s, n).keys, x, q)
    ensures var now := OwnerOf(Joined(hash, vnodes, s, n).owners, q);
            now == n || now == OwnerOf(s.owners, p)
  {
    hide Sort, Points, Owned, Owns;
    if n in s.present {
      NextUnique(s.keys, x, p, q);
    } else {
      var all := s.keys + Points(hash, n, vnodes);
      forall k
        ensures k in Sort(all) <==> k in s.keys || Owns(hash, vnodes, n, k)
      {
        SortKeeps(all, k);
        PointsHave(hash, n, vnodes, k);
      }
      OwnedAt(s.owners, hash, n, vnodes, q);
      if !Owns(hash, vnodes, n, q) {
        NextUnique(s.keys, x, p, q);
      }
    }
  }

  /** Dropping a node keeps every key of another owner, and its owner. */
  lemma {:induction false} DroppedOthers(keys: seq<U64>, owners: map<U64, string>, node: string, k: U64)
    ensures var (kept, left) := Dropped(keys, owners, node);
            && (k in kept ==> k in keys)
            && (OwnerOf(owners, k) != node ==> OwnerOf(left, k) == OwnerOf(owners, k) && (k in keys ==> k in kept))
  {
    if keys == [] {
    } else {
      var n := |keys| - 1;
      DroppedOthers(keys[..n], owners, node, k);
      assert keys == keys[..n] + [keys[n]];
    }
  }

  /** A departure moves only lookups that the departed node served, even where points collide. */
  lemma {:induction false} RemoveMovesOnlyOwned(s: State, n: string, x: U64, p: U64, q: U64)
    requires IsNext(s.keys, x, p) && IsNext(Left(s, n).keys, x, q)
    ensures OwnerOf(s.owners, p) == n || OwnerOf(Left(s, n).owners, q) == OwnerOf(s.owners, p)
  {
    hide Dropped;
    if n !in s.present {
      NextUnique(s.keys, x, p, q);
    } else if OwnerOf(s.owners, p) != n {
      forall k
        ensures k in Left(s, n).keys ==> k in s.keys
      {
        DroppedOthers(s.keys, s.owners, n, k);
      }
      DroppedOthers(s.keys, s.owners, n, p);
      NextUnique(Left(s, n).keys, x, p, q);
    }
  }

  // ---------- Without that, history shows ----------

  ghost predicate HistoryIndependent(hash: HashString, vnodes: nat, universe: set<string>)
  {
    forall ops, ops' :: Within(ops, universe) && Within(ops', universe) && Members({}, ops) == Members({}, ops') ==>
                          Ran(hash, vnodes, ops) == Ran(hash, vnodes, ops')
  }

  lemma {:induction false} RanTwo(hash: HashString, vnodes: nat, x: Op, y: Op)
    ensures Ran(hash, vnodes, [x, y]) == Step(hash, vnodes, Step(hash, vnodes, NO_NODES, x), y)
    ensures Members({}, [x, y]) == Members(Members({}, [x]), [y])
  {
    hide Step;
    assert [x, y][..1] == [x] && [x][..0] == [] && [y][..0] == [];
    assert Ran(hash, vnodes, [x]) == Step(hash, vnodes, NO_NODES, x);
    assert Members({}, [x, y][..1]) == Members({}, [x]);
  }

  /** A point shared by two nodes belongs to whichever joined last. */
  lemma {:induction false} SharedPointShows(hash: HashString, vnodes: nat, a: string, b: string, k: U64)
    requires a != b && Owns(hash, vnodes, a, k) && Owns(hash, vnodes, b, k)
    ensures Ran(hash, vnodes, [Add(a), Add(b)]) != Ran(hash, vnodes, [Add(b), Add(a)])
  {
    RanTwo(hash, vnodes, Add(a), Add(b));
    RanTwo(hash, vnodes, Add(b), Add(a));
    OwnedAt(Joined(hash, vnodes, NO_NODES, a).owners, hash, b, vnodes, k);
    OwnedAt(Joined(hash, vnodes, NO_NODES, b).owners, hash, a, vnodes, k);
    assert Ran(hash, vnodes, [Add(a), Add(b)]).owners[k] == b;
    assert Ran(hash, vnodes, [Add(b), Add(a)]).owners[k] == a;
  }

  lemma {:induction false} DroppedOnce(keys: seq<U64>, owners: map<U64, string>, node: string, p: nat)
    requires node != "" && p < |keys|
    ensures OwnerOf(Dropped(keys, owners, node).1, keys[p]) != node
  {
    var n := |keys| - 1;
    if p == n {
    } else {
      DroppedOnce(keys[..n], owners, node, p);
    }
  }

  /** A repeated key is dropped once only: by its second occurrence it has no owner left. */
  lemma {:induction false} RepeatStays(keys: seq<U64>, owners: map<U64, string>, node: string, p: nat, q: nat)
    requires node != "" && p < q < |keys| && keys[p] == keys[q]
    ensures keys[q] in Dropped(keys, owners, node).0
  {
    var n := |keys| - 1;
    if q < n {
      RepeatStays(keys[..n], owners, node, p, q);
    } else {
      DroppedOnce(keys[..n], owners, node, p);
    }
  }

  lemma {:induction false} TwiceCounts(s: seq<U64>, i: nat, j: nat)
    requires i < j < |s| && s[i] == s[j]
    ensures multiset(s)[s[i]] >= 2
  {
    var l, r := s[..j], s[j..];
    assert s == l + r && l[i] == s[i] && r[0] == s[j];
    assert s[i] in multiset(l) && s[j] in multiset(r);
  }

  lemma {:induction false} TwiceFound(s: seq<U64>, k: U64) returns (p: nat, q: nat)
    requires multiset(s)[k] >= 2
    ensures p < q < |s| && s[p] == s[q]
  {
    if Distinct(s) {
      DistinctCount(s, k);
    }
    p, q :| p < q < |s| && s[p] == s[q];
  }

  /** A node with a point of its own repeated does not leave without a trace. */
  lemma {:induction false} RepeatedPointShows(hash: HashString, vnodes: nat, a: string, i: nat, j: nat)
    requires a != "" && i < j < vnodes && Point(hash, a, i) == Point(hash, a, j)
    ensures Ran(hash, vnodes, [Add(a), Remove(a)]) != Ran(hash, vnodes, [])
  {
    hide Sort, Dropped;
    RanTwo(hash, vnodes, Add(a), Remove(a));
    var s := Joined(hash, vnodes, NO_NODES, a);
    var points := Points(hash, a, vnodes);
    PointsAre(hash, a, vnodes);
    TwiceCounts(points, i, j);
    SortIs(points);
    assert [] + points == points;
    var p, q := TwiceFound(s.keys, points[i]);
    RepeatStays(s.keys, s.owners, a, p, q);
  }

  /** The ring depends on nothing but its members exactly when no two virtual nodes collide. */
  lemma {:induction false} HistoryIndependentIff(hash: HashString, vnodes: nat, universe: set<string>)
    requires "" !in universe
    ensures HistoryIndependent(hash, vnodes, universe) <==> NoCollisions(hash, vnodes, universe)
  {
    hide Ran;
    if NoCollisions(hash, vnodes, universe) {
      forall ops, ops' | Within(ops, universe) && Within(ops', universe) && Members({}, ops) == Members({}, ops')
        ensures Ran(hash, vnodes, ops) == Ran(hash, vnodes, ops')
      {
        SameMembersSameRing(hash, vnodes, universe, ops, ops');
      }
    } else {
      CollisionShows(hash, vnodes, universe);
    }
  }

  lemma {:induction false} CollisionShows(hash: HashString, vnodes: nat, universe: set<string>)
    requires "" !in universe && !NoCollisions(hash, vnodes, universe)
    ensures !HistoryIndependent(hash, vnodes, universe)
  {
    hide Ran, HistoryIndependent;
    var a, b, i: nat, j: nat :| a in universe && b in universe && i < vnodes && j < vnodes
                                && Point(hash, a, i) == Point(hash, b, j) && !(a == b && i == j);
    if a != b {
      SharedPointShows(hash, vnodes, a, b, Point(hash, a, i));
      RanTwo(hash, vnodes, Add(a), Add(b));
      RanTwo(hash, vnodes, Add(b), Add(a));
      OneMember(a);
      OneMember(b);
      AddOne({a}, b);
      AddOne({b}, a);
      Shows(hash, vnodes, universe, [Add(a), Add(b)], [Add(b), Add(a)]);
    } else {
      RepeatedPointShows(hash, vnodes, a, if i < j then i else j, if i < j then j else i);
      RanTwo(hash, vnodes, Add(a), Remove(a));
      OneMember(a);
      assert Members({a}, [Remove(a)]) == {} by {
        assert [Remove(a)][..0] == [];
      }
      Shows(hash, vnodes, universe, [Add(a), Remove(a)], []);
    }
  }

  lemma {:induction false} OneMember(a: string)
    ensures Members({}, [Add(a)]) == {a}
  {
    AddOne({}, a);
  }

  lemma {:induction false} AddOne(s: set<string>, a: string)
    ensures Members(s, [Add(a)]) == s + {a}
  {
    assert [Add(a)][..0] == [];
  }

  lemma {:induction false} Shows(hash: HashString, vnodes: nat, universe: set<string>, ops: seq<Op>, ops': seq<Op>)
    requires Within(ops, universe) && Within(ops', universe) && Members({}, ops) == Members({}, ops')
    requires Ran(hash, vnodes, ops) != Ran(hash, vnodes, ops')
    ensures !HistoryIndependent(hash, vnodes, universe)
  {
  }

  lemma {:induction false} EmptyIff(keys: seq<U64>, owners: map<U64, string>, hash: HashString, vnodes: nat, nodes: set<string>)
    requires Laid(keys, owners, hash, vnodes, nodes)
    ensures keys == [] <==> nodes == {} || vnodes == 0
  {
    if keys != [] {
      assert keys[0] in keys;
    }
    if nodes != {} && vnodes > 0 {
      var n :| n in nodes;
      assert Point(hash, n, 0) in owners;
    }
  }

  lemma {:induction false} KeepsOthers(hash: HashString, vnodes: nat, nodes: set<string>, owners: map<U64, string>, left: map<U64, string>, node: string)
    requires forall k :: k in owners ==> owners[k] in nodes && Owns(hash, vnodes, owners[k], k)
    requires forall n, i: nat {:trigger Point(hash, n, i)} :: n in nodes && i < vnodes ==> Point(hash, n, i) in owners
    requires forall k :: k in left ==> k in owners && left[k] == owners[k] && left[k] != node
    requires forall k :: k in owners && k !in left ==> owners[k] == node
    requires NoCollisions(hash, vnodes, nodes)
    ensures forall n, i: nat {:trigger Point(hash, n, i)} :: n in nodes - {node} && i < vnodes ==> Point(hash, n, i) in left
  {
    forall n, i: nat | n in nodes - {node} && i < vnodes
      ensures Point(hash, n, i) in left
    {
      var k := Point(hash, n, i);
      OwnsUnique(hash, vnodes, nodes, owners[k], n, k);
    }
  }

  lemma {:induction false} FreshPoint(hash: HashString, vnodes: nat, universe: set<string>, nodes: set<string>, owners: map<U64, string>, node: string, i: nat)
    requires NoCollisions(hash, vnodes, universe) && nodes <= universe && node in universe && node !in nodes && i < vnodes
    requires forall k :: k in owners ==> owners[k] in nodes && Owns(hash, vnodes, owners[k], k)
    ensures Point(hash, node, i) !in owners
    ensures forall j: nat :: j < vnodes && j != i ==> Point(hash, node, j) != Point(hash, node, i)
  {
  }

  // ---------- The ring ----------

  class ConsistentHashRing {
    const hash: HashString
    const hashBytes: HashBytes
    const vnodes: nat
    /** The nodes whose points are known not to collide. */
    ghost const universe: set<string>
    var keys: seq<U64>
    var nodes: map<U64, string>
    var nodePresent: set<string>

    constructor (hash: HashString, hashBytes: HashBytes, vnodes: nat, ghost universe: set<string>)
      ensures Value() == NO_NODES && (NoCollisions(hash, vnodes, universe) ==> Valid())
      ensures this.hash == hash && this.hashBytes == hashBytes && this.vnodes == vnodes && this.universe == universe
    {
      this.hash, this.hashBytes, this.vnodes, this.universe := hash, hashBytes, vnodes, universe;
      keys, nodes, nodePresent := [], map[], {};
    }

    function Value(): State
      reads this
    {
      State(keys, nodes, nodePresent)
    }

    ghost predicate Valid()
      reads this
    {
      nodePresent <= universe && NoCollisions(hash, vnodes, universe) && IsLaid(Value(), hash, vnodes)
    }

    method AddNode(node: string)
      modifies this
      ensures Value() == Joined(hash, vnodes, old(Value()), node)
      ensures old(Ascending(keys)) ==> Ascending(keys)
      ensures old(Valid()) && node in universe ==> Valid()
      ensures node !in old(nodePresent) ==>
                forall i: nat {:trigger Itoa(i)} :: i < vnodes ==>
                  var k := hash(node + "#" + Itoa(i)); k in keys && k in nodes && nodes[k] == node
    {
      hide Sort, Laid, NoCollisions, Itoa;
      if node in nodePresent {
        return;
      }
      nodePresent := nodePresent + {node};
      for i := 0 to vnodes
        modifies this`keys, this`nodes
        invariant keys == old(keys) + Points(hash, node, i) && nodes == Owned(old(nodes), hash, node, i)
      {
        var key := Point(hash, node, i);
        keys := keys + [key];
        nodes := nodes[key := node];
      }
      SortIs(keys);
      ghost var added := keys;
      keys := Sort(keys);
      forall i: nat | i < vnodes
        ensures var k := hash(node + "#" + Itoa(i)); k in keys && k in nodes && nodes[k] == node
      {
        var k := Point(hash, node, i);
        PointOwned(hash, vnodes, node, i);
        PointsHave(hash, node, vnodes, k);
        OwnedAt(old(nodes), hash, node, vnodes, k);
        SortKeeps(added, k);
      }
      if old(Valid()) && node in universe {
        JoinedLaid(hash, vnodes, universe, old(Value()), node);
      }
    }

    method RemoveNode(node: string)
      modifies this
      ensures Value() == Left(old(Value()), node)
      ensures old(Ascending(keys)) ==> Ascending(keys)
      ensures old(Valid()) ==> Valid()
    {
      hide Laid, NoCollisions;
      if node !in nodePresent {
        return;
      }
      nodePresent := nodePresent - {node};
      var newKeys := [];
      for i := 0 to |keys|
        modifies this`nodes
        invariant (newKeys, nodes) == Dropped(keys[..i], old(nodes), node)
      {
        assert keys[..i + 1][..i] == keys[..i];
        if OwnerOf(nodes, keys[i]) == node {
          nodes := nodes - {keys[i]};
        } else {
          newKeys := newKeys + [keys[i]];
        }
      }
      assert keys[..|keys|] == keys;
      if Ascending(keys) {
        DroppedAscending(keys, old(nodes), node);
      }
      keys := newKeys;
      if old(Valid()) {
        FewerCollide(hash, vnodes, universe, old(nodePresent));
        LeftLaid(hash, vnodes, old(Value()), node);
      }
    }

    /** The node whose point comes next clockwise, or "" on an empty ring; on a laid-out ring, the owner. */
    method Find(x: U64) returns (owner: string)
      requires Ascending(keys)
      ensures keys == [] ==> owner == ""
      ensures keys != [] ==> exists p :: IsNext(keys, x, p) && owner == OwnerOf(nodes, p)
      ensures Valid() ==> Serves(hash, vnodes, nodePresent, x, owner)
    {
      if |keys| == 0 {
        if Valid() {
          EmptyIff(keys, nodes, hash, vnodes, nodePresent);
        }
        return "";
      }
      var idx := SearchKeys(keys, x);
      ghost var at := idx;
      if idx == |keys| {
        idx := 0;
      }
      owner := OwnerOf(nodes, keys[idx]);
      SearchIsNext(keys, x, at);
      if Valid() {
        EmptyIff(keys, nodes, hash, vnodes, nodePresent);
        SuccessorOwns(keys, nodes, hash, vnodes, nodePresent, x, at);
      }
    }

    method Lookup(key: string) returns (owner: string)
      requires Ascending(keys)
      ensures keys == [] ==> owner == ""
      ensures keys != [] ==> exists p :: IsNext(keys, hash(key), p) && owner == OwnerOf(nodes, p)
      ensures Valid() ==> Serves(hash, vnodes, nodePresent, hash(key), owner)
    {
      owner := Find(hash(key));
    }

    method LookupPartition(partition: nat) returns (owner: string)
      requires Ascending(keys) && partition < TWO_32
      ensures keys == [] ==> owner == ""
      ensures keys != [] ==> exists p :: IsNext(keys, hashBytes(ToLE(partition, 4)), p) && owner == OwnerOf(nodes, p)
      ensures Valid() ==> Serves(hash, vnodes, nodePresent, hashBytes(ToLE(partition, 4)), owner)
    {
      owner := Find(hashBytes(ToLE(partition, 4)));
    }

    /** Any history of joins and departures, on a new ring. */
    method Apply(ops: seq<Op>)
      requires Value() == NO_NODES
      modifies this
      ensures Value() == Ran(hash, vnodes, ops) && Ascending(keys)
    {
      hide Joined, Left;
      for i := 0 to |ops|
        invariant Value() == Ran(hash, vnodes, ops[..i]) && Ascending(keys)
      {
        assert ops[..i + 1][..i] == ops[..i];
        match ops[i]
        case Add(n) => AddNode(n);
        case Remove(n) => RemoveNode(n);
      }
      assert ops[..|ops|] == ops;
    }
  }

  /** `p` is the next of the keys, going clockwise from x. */
  ghost predicate IsNext(keys: seq<U64>, x: U64, p: U64)
  {
    p in keys && forall q :: q in keys ==> Clockwise(x, p) <= Clockwise(x, q)
  }

  /** The next key clockwise is the least one not below x or, if all are below, the least of all. */
  lemma {:induction false} NextIff(keys: seq<U64>, x: U64, p: U64)
    ensures IsNext(keys, x, p) <==>
            && p in keys && (p < x ==> forall q :: q in keys ==> q < x)
            && (forall q :: q in keys && (q >= x <==> p >= x) ==> p <= q)
  {
  }

  /** The owner of x among these nodes, or "" when there is none. */
  ghost predicate Serves(hash: HashString, vnodes: nat, nodes: set<string>, x: U64, owner: string)
  {
    if nodes == {} || vnodes == 0 then owner == "" else IsOwner(hash, vnodes, nodes, x, owner)
  }

  /** On a laid-out ring the next key belongs to the owner. */
  lemma {:induction false} NextOwns(
    keys: seq<U64>, owners: map<U64, string>, hash: HashString, vnodes: nat, nodes: set<string>, x: U64, p: U64)
    requires Laid(keys, owners, hash, vnodes, nodes) && IsNext(keys, x, p)
    ensures p in owners && IsOwner(hash, vnodes, nodes, x, OwnerOf(owners, p))
  {
    assert Nearest(hash, vnodes, nodes, x, p);
  }

  lemma {:induction false} SearchIsNext(keys: seq<U64>, x: U64, idx: nat)
    requires Ascending(keys) && keys != [] && idx <= |keys|
    requires forall i :: 0 <= i < idx ==> keys[i] < x
    requires forall i :: idx <= i < |keys| ==> keys[i] >= x
    ensures IsNext(keys, x, keys[if idx == |keys| then 0 else idx])
  {
    var p := keys[if idx == |keys| then 0 else idx];
    forall q | q in keys
      ensures Clockwise(x, p) <= Clockwise(x, q)
    {
      var j :| 0 <= j < |keys| && keys[j] == q;
    }
  }

  lemma {:induction false} DroppedAscending(keys: seq<U64>, owners: map<U64, string>, node: string)
    requires Ascending(keys)
    ensures var kept := Dropped(keys, owners, node).0; Ascending(kept) && forall k :: k in kept ==> k in keys
  {
    if keys == [] {
    } else {
      var n := |keys| - 1;
      DroppedAscending(keys[..n], owners, node);
      assert keys == keys[..n] + [keys[n]];
      assert forall k :: k in keys[..n] ==> k <= keys[n];
      AscendingSnoc(Dropped(keys[..n], owners, node).0, keys[n]);
    }
  }
}
