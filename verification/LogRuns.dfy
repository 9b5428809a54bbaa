/**
 Whole runs of the log: any sequence of appends, flushes and retention passes on an empty
 directory, followed by one read. The byte format, the sparse index, rolling and retention
 together behave like one append-only sequence.
 */
module LogRuns {
  import opened Bytes
  import opened Record
  import opened LogFile
  import opened Segment
  import opened Layout
  import opened Manager

  datatype Op = Append(m: Message) | Flush | Retain(aged: nat -> bool)

  /** The messages a run appends: all but those with an oversized topic. */
  function Accepted(ops: seq<Op>): seq<Message>
  {
    if ops == [] then []
    else
      var op := ops[|ops| - 1];
      Accepted(ops[..|ops| - 1]) + if op.Append? && |op.m.topic| <= MAX_TOPIC then [op.m] else []
  }

  function Volume(ops: seq<Op>): nat
  {
    if ops == [] then 0
    else
      var op := ops[|ops| - 1];
      Volume(ops[..|ops| - 1]) + if op.Append? then |Encode(op.m)| else 0
  }

  /**
   What the log asks of its writer: sequences increase from one append to the next, payload
   lengths fit their field, and a segment's size stays within int64.
   */
  ghost predicate Orderly(ops: seq<Op>)
  {
    && (forall i :: 0 <= i < |ops| && ops[i].Append? ==> |ops[i].m.payload| < TWO_32)
    && (forall i, j :: 0 <= i < j < |ops| && ops[i].Append? && ops[j].Append? ==> ops[i].m.sequence < ops[j].m.sequence)
    && Volume(ops) < TWO_63
  }

  ghost predicate AllBelow(ops: seq<Op>, bound: int)
  {
    forall i :: 0 <= i < |ops| && ops[i].Append? ==> ops[i].m.sequence < bound
  }

  lemma {:induction false} AcceptedBelow(ops: seq<Op>, bound: int)
    requires AllBelow(ops, bound)
    ensures Below(Accepted(ops), bound)
  {
    if ops == [] {
    } else {
      AcceptedBelow(ops[..|ops| - 1], bound);
    }
  }

  lemma {:induction false} VolumeGrows(ops: seq<Op>, i: nat)
    requires i <= |ops|
    ensures Volume(ops[..i]) <= Volume(ops)
    decreases |ops|
  {
    hide Encode;
    if i == |ops| {
      assert ops[..i] == ops;
    } else {
      VolumeGrows(ops[..|ops| - 1], i);
      assert ops[..|ops| - 1][..i] == ops[..i];
    }
  }

  // ---------- The segments a run leaves ----------

  datatype Policy = Policy(maxSegmentBytes: int, retentionBytes: int, ageLimited: bool)

  /** Which of the first n segments a pass of retention finds too old. */
  function Flags(aged: nat -> bool, n: nat): (r: seq<bool>)
    ensures |r| == n && forall i :: 0 <= i < n ==> r[i] == aged(i)
  {
    seq(n, i requires 0 <= i < n => aged(i))
  }

  /** The messages of removed segments, and the segments kept. */
  datatype Kept = Kept(gone: seq<Message>, parts: seq<Part>)

  function KeptAfter(ops: seq<Op>, policy: Policy): (k: Kept)
    ensures k.parts != []
  {
    if ops == [] then Kept([], [Part(0, [])])
    else OneOp(KeptAfter(ops[..|ops| - 1], policy), ops[|ops| - 1], policy)
  }

  function OneOp(k: Kept, op: Op, policy: Policy): (r: Kept)
    requires k.parts != []
    ensures r.parts != []
  {
    match op
    case Append(m) => Kept(k.gone, ExtendedParts(RolledParts(k.parts, m.sequence, policy.maxSegmentBytes), m))
    case Flush => k
    case Retain(aged) =>
      var n := FirstKept(k.parts, policy.retentionBytes, policy.ageLimited, Flags(aged, |k.parts|), 0);
      Kept(k.gone + AllMsgs(k.parts[..n]), k.parts[n..])
  }

  /**
   What was removed lies below the oldest base and what is kept does not; only the last segment can
   be empty, and the oldest base is above 0 only if messages were really removed.
   */
  ghost predicate Tidy(k: Kept)
  {
    && k.parts != [] && LaidOut(k.gone, k.parts)
    && (forall i :: 0 <= i < |k.parts| - 1 ==> k.parts[i].msgs != [])
    && (k.parts[0].base > 0 ==> k.gone != [])
  }

  /** The last base is 0 or the sequence of a message that was offered. */
  ghost predicate BaseSeen(k: Kept, ops: seq<Op>)
    requires k.parts != []
  {
    var base := k.parts[|k.parts| - 1].base;
    base == 0 || exists i :: 0 <= i < |ops| && ops[i].Append? && ops[i].m.sequence == base
  }

  lemma {:induction false} RollTidy(k: Kept, base: U64, maxSegmentBytes: int)
    requires Tidy(k) && maxSegmentBytes > 0 && Below(Whole(k.gone, k.parts), base)
    ensures var r := Kept(k.gone, RolledParts(k.parts, base, maxSegmentBytes));
            Tidy(r) && Whole(r.gone, r.parts) == Whole(k.gone, k.parts)
  {
    hide LaidOut, Whole, Below, EncodeAll;
    NothingEncoded();
    if |EncodeAll(k.parts[|k.parts| - 1].msgs)| >= maxSegmentBytes {
      StartSegment(k.gone, k.parts, base);
    }
  }

  lemma {:induction false} ExtendTidy(k: Kept, m: Message)
    requires Tidy(k) && k.parts[|k.parts| - 1].base <= m.sequence
    ensures var r := Kept(k.gone, ExtendedParts(k.parts, m));
            Tidy(r) && Whole(r.gone, r.parts) == Whole(k.gone, k.parts) + if |m.topic| <= MAX_TOPIC then [m] else []
  {
    hide LaidOut;
    if |m.topic| <= MAX_TOPIC {
      ExtendLast(k.gone, k.parts, m);
    }
  }

  lemma {:induction false} RetainTidy(k: Kept, n: nat)
    requires Tidy(k) && n < |k.parts|
    ensures var r := Kept(k.gone + AllMsgs(k.parts[..n]), k.parts[n..]);
            Tidy(r) && Whole(r.gone, r.parts) == Whole(k.gone, k.parts)
  {
    hide LaidOut, Whole;
    RemoveOldest(k.gone, k.parts, n);
    if n == 0 {
      assert k.parts[0..] == k.parts;
    } else {
      assert k.parts[..n][0] == k.parts[0];
    }
  }

  lemma {:induction false} AppendTidy(k: Kept, m: Message, maxSegmentBytes: int)
    requires Tidy(k) && maxSegmentBytes > 0 && Below(Whole(k.gone, k.parts), m.sequence)
    requires k.parts[|k.parts| - 1].base <= m.sequence
    ensures var r := Kept(k.gone, ExtendedParts(RolledParts(k.parts, m.sequence, maxSegmentBytes), m));
            Tidy(r) && Whole(r.gone, r.parts) == Whole(k.gone, k.parts) + if |m.topic| <= MAX_TOPIC then [m] else []
  {
    assert k.parts != [];
    hide Tidy, Whole, Below, RolledParts, ExtendedParts;
    RollTidy(k, m.sequence, maxSegmentBytes);
    RollBase(k.parts, m, maxSegmentBytes);
    ExtendTidy(Kept(k.gone, RolledParts(k.parts, m.sequence, maxSegmentBytes)), m);
  }

  /** The last base is not above a sequence beyond everything offered. */
  lemma {:induction false} OfferedBelow(k: Kept, ops: seq<Op>, bound: U64)
    requires ops != [] && k.parts != [] && BaseSeen(k, ops[..|ops| - 1]) && AllBelow(ops[..|ops| - 1], bound)
    ensures k.parts[|k.parts| - 1].base <= bound
  {
  }

  lemma {:induction false} AppendSeen(k: Kept, ops: seq<Op>, m: Message, policy: Policy)
    requires ops != [] && ops[|ops| - 1] == Append(m) && k.parts != [] && BaseSeen(k, ops[..|ops| - 1])
    ensures BaseSeen(OneOp(k, Append(m), policy), ops)
  {
    RollBase(k.parts, m, policy.maxSegmentBytes);
    hide RolledParts, ExtendedParts;
    StillSeen(k, ops);
    assert ops[|ops| - 1].m.sequence == m.sequence;
  }

  lemma {:induction false} StillSeen(k: Kept, ops: seq<Op>)
    requires ops != [] && k.parts != [] && BaseSeen(k, ops[..|ops| - 1])
    ensures BaseSeen(k, ops)
    ensures forall n :: 0 <= n < |k.parts| ==> BaseSeen(Kept(k.gone + AllMsgs(k.parts[..n]), k.parts[n..]), ops)
  {
    hide AllMsgs;
    var base := k.parts[|k.parts| - 1].base;
    if base != 0 {
      var i :| 0 <= i < |ops| - 1 && ops[..|ops| - 1][i].Append? && ops[..|ops| - 1][i].m.sequence == base;
      assert ops[i].Append? && ops[i].m.sequence == base;
    }
  }

  /** Every run leaves a tidy log of exactly the accepted messages. */
  lemma {:induction false} RunLayout(ops: seq<Op>, policy: Policy)
    requires Orderly(ops) && policy.maxSegmentBytes > 0
    ensures var k := KeptAfter(ops, policy);
            Tidy(k) && Whole(k.gone, k.parts) == Accepted(ops) && BaseSeen(k, ops)
    decreases |ops|
  {
    hide Tidy, Whole, Encode, RolledParts, ExtendedParts, BaseSeen;
    if ops == [] {
      EmptyTidy();
    } else {
      var n := |ops| - 1;
      var done, before := ops[..n], KeptAfter(ops[..n], policy);
      VolumeGrows(ops, n);
      RunLayout(done, policy);
      match ops[n]
      case Append(m) =>
        AcceptedBelow(done, m.sequence);
        OfferedBelow(before, ops, m.sequence);
        AppendTidy(before, m, policy.maxSegmentBytes);
        AppendSeen(before, ops, m, policy);
      case Flush =>
        StillSeen(before, ops);
      case Retain(aged) =>
        StillSeen(before, ops);
        RetainTidy(before, FirstKept(before.parts, policy.retentionBytes, policy.ageLimited, Flags(aged, |before.parts|), 0));
    }
  }

  /**
   After a pass of retention the oldest segment kept is the active one, or the log is within its
   limit and that segment not too old; and this was not so before any segment it removed.
   */
  lemma {:induction false} RetainedIs(ops: seq<Op>, aged: nat -> bool, policy: Policy)
    ensures var before, after := KeptAfter(ops, policy).parts, KeptAfter(ops + [Retain(aged)], policy).parts;
            var k := |before| - |after|;
            && 0 <= k && after == before[k..]
            && (|after| == 1 || (|EncodeAll(AllMsgs(after))| <= policy.retentionBytes && !(policy.ageLimited && aged(k))))
            && (forall j :: 0 <= j < k ==> |EncodeAll(AllMsgs(before[j..]))| > policy.retentionBytes || (policy.ageLimited && aged(j)))
  {
    hide EncodeAll, AllMsgs, FirstKept;
    var before := KeptAfter(ops, policy);
    assert (ops + [Retain(aged)])[..|ops|] == ops;
    var flags := Flags(aged, |before.parts|);
    var n := FirstKept(before.parts, policy.retentionBytes, policy.ageLimited, flags, 0);
    RetentionIs(before.parts, policy.retentionBytes, policy.ageLimited, flags, 0);
    assert KeptAfter(ops + [Retain(aged)], policy).parts == before.parts[n..];
  }

  lemma {:induction false} RollBase(parts: seq<Part>, m: Message, maxSegmentBytes: int)
    requires parts != []
    ensures var rolled := RolledParts(parts, m.sequence, maxSegmentBytes);
            var r := ExtendedParts(rolled, m);
            && (rolled[|rolled| - 1].base == parts[|parts| - 1].base || rolled[|rolled| - 1].base == m.sequence)
            && r[|r| - 1].base == rolled[|rolled| - 1].base
  {
  }

  lemma {:induction false} EmptyTidy()
    ensures Tidy(Kept([], [Part(0, [])])) && Whole([], [Part(0, [])]) == [] && BaseSeen(Kept([], [Part(0, [])]), [])
  {
    AllMsgsOne(Part(0, []));
  }

  // ---------- Running ----------

  /** What every prefix of a run establishes about the log. */
  ghost predicate Reached(log: SegmentManager, ops: seq<Op>, policy: Policy)
    reads log, log.Owned
  {
    && log.Valid() && Kept(log.gone, log.parts) == KeptAfter(ops, policy)
    && Policy(log.maxSegmentBytes, log.retentionBytes, log.ageLimited) == policy
    && log.active.currentSize <= Volume(ops)
  }

  method Step(log: SegmentManager, ops: seq<Op>, i: nat, ghost policy: Policy)
    requires Orderly(ops) && i < |ops| && Reached(log, ops[..i], policy) && policy.maxSegmentBytes > 0
    modifies log, log.Owned
    ensures Reached(log, ops[..i + 1], policy) && fresh(log.Owned - old(log.Owned))
  {
    hide SegmentManager.Valid, KeptAfter, Volume, Reached;
    match ops[i]
    case Append(m) => StepAppend(log, ops, i, m, policy);
    case Flush => StepFlush(log, ops, i, policy);
    case Retain(aged) => StepRetain(log, ops, i, aged, policy);
  }

  method StepAppend(log: SegmentManager, ops: seq<Op>, i: nat, m: Message, ghost policy: Policy)
    requires Orderly(ops) && i < |ops| && Reached(log, ops[..i], policy) && policy.maxSegmentBytes > 0 && ops[i] == Append(m)
    modifies log, log.Owned
    ensures Reached(log, ops[..i + 1], policy) && fresh(log.Owned - old(log.Owned))
  {
    hide SegmentManager.Valid, Encode, RolledParts, ExtendedParts, Tidy, Whole, BaseSeen;
    ghost var done := ops[..i];
    AfterOne(ops, i, policy);
    VolumeGrows(ops, i + 1);
    VolumeGrows(ops, i);
    RunLayout(done, policy);
    log.ActiveBase();
    AcceptedBelow(done, m.sequence);
    assert ops[..i + 1][..i] == done;
    OfferedBelow(Kept(log.gone, log.parts), ops[..i + 1], m.sequence);
    var r := log.Append(m);
  }

  method StepFlush(log: SegmentManager, ops: seq<Op>, i: nat, ghost policy: Policy)
    requires i < |ops| && Reached(log, ops[..i], policy) && ops[i] == Flush
    modifies log, log.Owned
    ensures Reached(log, ops[..i + 1], policy) && fresh(log.Owned - old(log.Owned))
  {
    hide SegmentManager.Valid, Encode;
    AfterOne(ops, i, policy);
    log.Sync();
  }

  method StepRetain(log: SegmentManager, ops: seq<Op>, i: nat, aged: nat -> bool, ghost policy: Policy)
    requires i < |ops| && Reached(log, ops[..i], policy) && ops[i] == Retain(aged)
    modifies log, log.Owned
    ensures Reached(log, ops[..i + 1], policy) && fresh(log.Owned - old(log.Owned))
  {
    hide SegmentManager.Valid, Encode, FirstKept;
    AfterOne(ops, i, policy);
    log.ActiveBase();
    var flags := Flags(aged, |log.segments|);
    ghost var removed := log.EnforceRetention(flags);
  }

  lemma {:induction false} AfterOne(ops: seq<Op>, i: nat, policy: Policy)
    requires i < |ops|
    ensures KeptAfter(ops[..i + 1], policy) == OneOp(KeptAfter(ops[..i], policy), ops[i], policy)
    ensures Volume(ops[..i + 1]) == Volume(ops[..i]) + if ops[i].Append? then |Encode(ops[i].m)| else 0
  {
    hide OneOp, Encode;
    assert ops[..i + 1][..i] == ops[..i];
  }

  /** Reads until the reader reports the end of the log. */
  method Drain(reader: MultiSegmentReader) returns (ms: seq<Message>)
    requires reader.Ready()
    modifies reader.Own()
    ensures ms == old(reader.Remaining())
  {
    hide MultiSegmentReader.Remaining, MultiSegmentReader.Ready;
    ms := [];
    while true
      invariant reader.Ready() && fresh(reader.Own() - old(reader.Own()))
      invariant old(reader.Remaining()) == ms + reader.Remaining()
      decreases |reader.Remaining()|
    {
      ghost var before := reader.Remaining();
      var t := reader.Next();
      if t.Finished? {
        assert old(reader.Remaining()) == ms;
        return;
      }
      var m := t.view.Value();
      assert ms + before == (ms + [m]) + reader.Remaining();
      ms := ms + [m];
    }
  }

  /**
   No silent gap, for every run: a read is refused exactly when it starts below the oldest segment
   kept, and otherwise returns every message ever accepted from `start` on, once and in order,
   although rolls, index seeks and retention happened at arbitrary points. RunLayout says what is kept.
   */
  method RunThenRead(ops: seq<Op>, start: U64, indexInterval: int, policy: Policy) returns (tooOld: bool, ms: seq<Message>)
    requires Orderly(ops) && policy.maxSegmentBytes > 0
    ensures tooOld <==> start < KeptAfter(ops, policy).parts[0].base
    ensures !tooOld ==> ms == From(StoredAll(Accepted(ops)), start)
  {
    hide SegmentManager.Valid, SegmentManager.VisibleLog, MultiSegmentReader.Remaining, MultiSegmentReader.Ready, From, StoredAll, EncodeAll, KeptAfter, Tidy;
    var log := RunLog(ops, indexInterval, policy);
    RunLayout(ops, policy);
    log.Sync();
    log.VisibleIsPrefix();
    var r := log.NewReader(start);
    if r.SequenceTooOld? {
      return true, [];
    }
    var all := Drain(r.reader);
    return false, all;
  }

  /** The log after a run on an empty directory. */
  method RunLog(ops: seq<Op>, indexInterval: int, policy: Policy) returns (log: SegmentManager)
    requires Orderly(ops) && policy.maxSegmentBytes > 0
    ensures fresh(log) && fresh(log.Owned) && Reached(log, ops, policy)
  {
    hide SegmentManager.Valid, EncodeAll, OneOp;
    log := new SegmentManager(policy.maxSegmentBytes, indexInterval, policy.retentionBytes, policy.ageLimited);
    FreshLog(log);
    var i := 0;
    assert ops[..0] == [];
    while i < |ops|
      invariant i <= |ops| && Reached(log, ops[..i], policy) && fresh(log) && fresh(log.Owned)
    {
      Step(log, ops, i, policy);
      i := i + 1;
    }
    assert ops[..i] == ops;
  }

  /** Refused reads are about messages that are gone: they are a prefix, below everything kept. */
  lemma {:induction false} RefusedMeansRemoved(ops: seq<Op>, policy: Policy, start: U64)
    requires Orderly(ops) && policy.maxSegmentBytes > 0 && start < KeptAfter(ops, policy).parts[0].base
    ensures var k := KeptAfter(ops, policy);
            && k.gone != [] && k.gone <= Accepted(ops) && Below(k.gone, k.parts[0].base)
            && AtLeast(Accepted(ops)[|k.gone|..], k.parts[0].base)
  {
    hide KeptAfter;
    RunLayout(ops, policy);
    var k := KeptAfter(ops, policy);
    forall i | 0 <= i < |k.parts|
      ensures AtLeast(k.parts[i].msgs, k.parts[0].base)
    {
      if i > 0 {
        BasesIncrease(k.gone, k.parts, 0, i);
      }
    }
    AllMsgsAtLeast(k.parts, k.parts[0].base);
  }

  lemma {:induction false} FreshLog(log: SegmentManager)
    requires log.Valid() && log.parts == [Part(0, [])] && log.gone == []
    ensures log.active.currentSize == 0
  {
    hide Segment.Valid, EncodeAll;
    log.SegmentAt(0);
    log.segments[0].SizeOfMessages();
  }
}
