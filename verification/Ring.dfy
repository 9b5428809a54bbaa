/**
 The drop-oldest ring buffer (internal/backpressure/ring.go): a power-of-two array indexed by
 ever-growing head and tail counters masked to its size.
 */
module Ring {
  import opened Arithmetic
  import opened Bits
  import opened Collections

  datatype Slot<T> = Empty | Full(value: T)

  /** The slot of position i. */
  function At(i: nat, cap: nat): (k: nat)
    requires cap > 0
    ensures k < cap
  {
    i % cap
  }

  class Ring<T> {
    const buf: array<Slot<T>>
    const cap: nat
    const mask: nat
    var head: nat
    var tail: nat
    var totalPushed: nat
    var totalDropped: nat
    /** How the counters came about. */
    ghost var popped: nat
    ghost var overwritten: nat
    ghost var stale: nat

    constructor (capacity: int)
      requires capacity <= Pow2(32)
      ensures Valid() && fresh(buf) && Contents() == [] && cap >= 1 && IsLeastPow2(cap, capacity)
      ensures totalPushed == totalDropped == popped == overwritten == stale == 0
    {
      var c := NextPow2(capacity);
      buf := new Slot<T>[c](_ => Empty);
      cap, mask := c, c - 1;
      head, tail, totalPushed, totalDropped := 0, 0, 0, 0;
      popped, overwritten, stale := 0, 0, 0;
    }

    ghost predicate Valid()
      reads this, buf
    {
      && buf.Length == cap > 0 && IsPow2(cap) && mask == cap - 1
      && tail <= head <= tail + cap
      && (forall i :: tail <= i < head ==> buf[At(i, cap)].Full?)
      && totalPushed == popped + overwritten + (head - tail)
      && totalDropped == overwritten + stale
    }

    /** The unread events, oldest first. */
    ghost function Contents(): (s: seq<T>)
      requires Valid()
      reads this, buf
      ensures |s| == head - tail && |s| <= cap && cap > 0
    {
      seq(head - tail, i requires 0 <= i < head - tail && Valid() reads this, buf => buf[At(tail + i, cap)].value)
    }

    lemma {:induction false} ContentsAt(j: nat)
      requires Valid() && j < |Contents()|
      ensures buf.Length == cap && Contents()[j] == buf[At(tail + j, cap)].value
    {
    }

    function Index(i: nat): (k: nat)
      requires Valid()
      reads this, buf
      ensures k == At(i, cap) && k < buf.Length
    {
      MaskIndex(i, cap);
      And(i, mask)
    }

    /** Writes an event, overwriting the oldest when full; an event past its age is refused. */
    method Push(ev: T, expired: bool) returns (written: bool)
      requires Valid()
      modifies this, buf
      ensures Valid() && written == !expired && popped == old(popped)
      ensures overwritten == old(overwritten) + if !expired && |old(Contents())| == cap then 1 else 0
      ensures expired ==> Contents() == old(Contents()) && totalDropped == old(totalDropped) + 1 && totalPushed == old(totalPushed)
      ensures !expired ==>
                && Contents() == Newest(old(Contents()) + [ev], cap)
                && totalPushed == old(totalPushed) + 1
                && totalDropped == old(totalDropped) + if |old(Contents())| == cap then 1 else 0
    {
      if expired {
        totalDropped, stale := totalDropped + 1, stale + 1;
        return false;
      }
      Write(ev);
      return true;
    }

    method Write(ev: T)
      requires Valid()
      modifies this, buf
      ensures Valid() && popped == old(popped) && totalPushed == old(totalPushed) + 1
      ensures Contents() == Newest(old(Contents()) + [ev], cap)
      ensures overwritten == old(overwritten) + if |old(Contents())| == cap then 1 else 0
      ensures totalDropped == old(totalDropped) + if |old(Contents())| == cap then 1 else 0
    {
      hide IsPow2, At, Newest, Contents, Valid;
      ghost var was, full := Contents(), if |Contents()| == cap then 1 else 0;
      NewestSnoc(was, ev, cap);
      Advance(ev, was);
      ghost var now := Contents();
      forall j | 0 <= j < |now|
        ensures now[j] == if j + full == |was| then ev else was[j + full]
      {
        ContentsAt(j);
      }
      assert now == Newest(was + [ev], cap);
    }

    /** Stores the event at the head; what was unread stays in its slots, but for the oldest of a full ring. */
    method Advance(ev: T, ghost was: seq<T>)
      requires Valid() && was == Contents()
      modifies this, buf
      ensures Valid() && popped == old(popped) && totalPushed == old(totalPushed) + 1
      ensures head == old(head) + 1 && tail == old(tail) + if |was| == cap then 1 else 0
      ensures buf.Length == cap > 0
      ensures forall i :: tail <= i < head ==> buf[At(i, cap)] == if i == old(head) then Full(ev) else Full(was[i - old(tail)])
      ensures overwritten == old(overwritten) + if |was| == cap then 1 else 0
      ensures totalDropped == old(totalDropped) + if |was| == cap then 1 else 0
    {
      hide IsPow2, At;
      SlotsApart(tail, head, cap);
      forall i | tail <= i < head
        ensures buf[At(i, cap)] == Full(was[i - tail])
      {
        assert was[i - tail] == buf[At(i, cap)].value;
      }
      buf[Index(head)] := Full(ev);
      var unread := head - tail;
      head := head + 1;
      if unread >= cap {
        totalDropped, overwritten := totalDropped + 1, overwritten + 1;
        tail := tail + 1;
      }
      totalPushed := totalPushed + 1;
    }

    /** Takes the oldest event. */
    method Pop() returns (r: Slot<T>)
      requires Valid()
      modifies this, buf
      ensures Valid() && totalPushed == old(totalPushed) && totalDropped == old(totalDropped)
      ensures overwritten == old(overwritten) && stale == old(stale)
      ensures old(Contents()) == [] ==> r == Empty && Contents() == [] && popped == old(popped)
      ensures old(Contents()) != [] ==>
                r == Full(old(Contents())[0]) && Contents() == old(Contents())[1..] && popped == old(popped) + 1
    {
      hide IsPow2, At;
      if tail >= head {
        return Empty;
      }
      var idx := Index(tail);
      r := buf[idx];
      buf[idx] := Empty;
      tail := tail + 1;
      popped := popped + 1;
      SlotsApart(old(tail), old(head), cap);
    }

    method Len() returns (n: nat)
      requires Valid()
      ensures n == |Contents()|
    {
      n := head - tail;
    }
  }

  lemma {:induction false} NewestSnoc<T>(s: seq<T>, x: T, n: nat)
    requires |s| <= n && n > 0
    ensures var r, gone := Newest(s + [x], n), if |s| == n then 1 else 0;
            && |r| == |s| + 1 - gone
            && forall j :: 0 <= j < |r| ==> r[j] == if j + gone == |s| then x else s[j + gone]
  {
  }

  lemma {:induction false} MaskIndex(i: nat, cap: nat)
    requires IsPow2(cap)
    ensures And(i, cap - 1) == i % cap < cap
  {
    var k: nat :| cap == Pow2(k);
    MaskIsMod(i, k);
  }

  /** Positions less than a capacity apart have different slots; a capacity apart, the same. */
  lemma {:induction false} SlotsApart(tail: nat, head: nat, cap: nat)
    requires cap > 0 && tail <= head <= tail + cap
    ensures forall i: nat :: tail <= i < head && i != head - cap ==> At(i, cap) != At(head, cap)
    ensures forall i: nat :: tail < i < head ==> At(i, cap) != At(tail, cap)
    ensures head == tail + cap ==> At(head, cap) == At(tail, cap)
  {
    forall i: nat | tail <= i < head && i != head - cap
      ensures At(i, cap) != At(head, cap)
    {
      ModApart(i, head, cap);
    }
    forall i: nat | tail < i < head
      ensures At(i, cap) != At(tail, cap)
    {
      ModApart(tail, i, cap);
    }
    if head == tail + cap {
      ModWrap(tail, cap);
    }
  }

  lemma {:induction false} ModApart(a: nat, b: nat, c: nat)
    requires c > 0 && a < b < a + c
    ensures a % c != b % c
  {
    var q, r := a / c, a % c;
    assert a == c * q + r;
    if r + (b - a) < c {
      QuotientUnique(b, c, q, r + (b - a));
    } else {
      assert c * (q + 1) == c * q + c;
      QuotientUnique(b, c, q + 1, r + (b - a) - c);
    }
  }

  lemma {:induction false} ModWrap(a: nat, c: nat)
    requires c > 0
    ensures (a + c) % c == a % c
  {
    var q, r := a / c, a % c;
    assert a == c * q + r && c * (q + 1) == c * q + c;
    QuotientUnique(a + c, c, q + 1, r);
  }

  // ---------- Whole runs ----------

  /** `Late` is the push of an event past its age. */
  datatype Op<T> = Push(ev: T) | Late(ev: T) | Pop

  /** A plain queue that keeps its newest `cap` events, and what its pops return. */
  function QueueStep<T>(cap: nat, q: seq<T>, op: Op<T>): (seq<T>, seq<Slot<T>>)
  {
    match op
    case Push(ev) => (Newest(q + [ev], cap), [])
    case Late(_) => (q, [])
    case Pop => if q == [] then ([], [Empty]) else (q[1..], [Full(q[0])])
  }

  function QueueRun<T>(cap: nat, q: seq<T>, ops: seq<Op<T>>): (seq<T>, seq<Slot<T>>)
  {
    if ops == [] then (q, [])
    else
      var before := QueueRun(cap, q, ops[..|ops| - 1]);
      var after := QueueStep(cap, before.0, ops[|ops| - 1]);
      (after.0, before.1 + after.1)
  }

  /** One operation, with the results it returns. */
  method Perform<T>(ring: Ring<T>, op: Op<T>) returns (outs: seq<Slot<T>>)
    requires ring.Valid()
    modifies ring, ring.buf
    ensures ring.Valid() && (ring.Contents(), outs) == QueueStep(ring.cap, old(ring.Contents()), op)
    ensures ring.stale == old(ring.stale) + if op.Late? then 1 else 0
    ensures ring.totalPushed == old(ring.totalPushed) + if op.Push? then 1 else 0
    ensures ring.totalDropped == old(ring.totalDropped) + if op.Late? || (op.Push? && |old(ring.Contents())| == ring.cap) then 1 else 0
    ensures ring.popped == old(ring.popped) + Delivered(outs)
  {
    hide Ring.Contents, IsPow2, Newest;
    match op
    case Push(ev) =>
      var written := ring.Push(ev, false);
      outs := [];
    case Late(ev) =>
      var written := ring.Push(ev, true);
      outs := [];
    case Pop =>
      var r := ring.Pop();
      outs := [r];
      DeliveredSnoc([], r);
      assert [] + [r] == [r];
  }

  function Pushes<T>(ops: seq<Op<T>>): nat
  {
    if ops == [] then 0 else Pushes(ops[..|ops| - 1]) + if ops[|ops| - 1].Push? then 1 else 0
  }

  function Refusals<T>(ops: seq<Op<T>>): nat
  {
    if ops == [] then 0 else Refusals(ops[..|ops| - 1]) + if ops[|ops| - 1].Late? then 1 else 0
  }

  /** How often the plain queue was full when an event arrived. */
  function Evictions<T>(cap: nat, ops: seq<Op<T>>): nat
  {
    if ops == [] then 0
    else
      var earlier := ops[..|ops| - 1];
      Evictions(cap, earlier) + if ops[|ops| - 1].Push? && |QueueRun(cap, [], earlier).0| == cap then 1 else 0
  }

  /** Any run of pushes, late ones among them, and pops: the masked array behaves as the plain queue, and its counters count. */
  method AnyRun<T>(capacity: int, ops: seq<Op<T>>) returns (cap: nat, left: nat, outs: seq<Slot<T>>, pushed: nat, dropped: nat)
    requires capacity <= Pow2(32)
    ensures IsLeastPow2(cap, capacity)
    ensures outs == QueueRun(cap, [], ops).1 && left == |QueueRun(cap, [], ops).0|
    ensures pushed == Pushes(ops) && dropped == Evictions(cap, ops) + Refusals(ops)
    ensures pushed == Delivered(outs) + Evictions(cap, ops) + left
  {
    var ring := new Ring<T>(capacity);
    cap, outs := ring.cap, [];
    for i := 0 to |ops|
      invariant ring.Valid() && fresh(ring) && fresh(ring.buf) && ring.cap == cap && ring.stale == Refusals(ops[..i])
      invariant (ring.Contents(), outs) == QueueRun(cap, [], ops[..i])
      invariant ring.popped == Delivered(outs)
      invariant ring.totalPushed == Pushes(ops[..i]) && ring.totalDropped == Evictions(cap, ops[..i]) + Refusals(ops[..i])
    {
      hide Ring.Contents, Ring.Valid, IsLeastPow2, IsPow2, QueueStep;
      assert ops[..i + 1][..i] == ops[..i];
      var more := Perform(ring, ops[i]);
      DeliveredAppend(outs, more);
      outs := outs + more;
    }
    hide QueueRun, Evictions, Pushes, Refusals;
    assert ops[..|ops|] == ops;
    left := ring.Len();
    pushed, dropped := ring.totalPushed, ring.totalDropped;
  }

  /** How many pops returned an event. */
  function Delivered<T>(outs: seq<Slot<T>>): nat
  {
    if outs == [] then 0 else Delivered(outs[..|outs| - 1]) + if outs[|outs| - 1].Full? then 1 else 0
  }

  lemma {:induction false} DeliveredAppend<T>(a: seq<Slot<T>>, b: seq<Slot<T>>)
    ensures Delivered(a + b) == Delivered(a) + Delivered(b)
  {
    if b == [] {
      assert a + b == a;
    } else {
      var n := |b| - 1;
      DeliveredAppend(a, b[..n]);
      assert (a + b)[..|a| + n] == a + b[..n];
    }
  }

  lemma {:induction false} DeliveredSnoc<T>(outs: seq<Slot<T>>, r: Slot<T>)
    ensures Delivered(outs + [r]) == Delivered(outs) + if r.Full? then 1 else 0
  {
    assert (outs + [r])[..|outs|] == outs;
  }
}
