/**
 The segmented write-ahead log (internal/wal/manager.go): appends that roll to new segments,
 retention, and a reader that crosses segment boundaries.
 */
module Manager {
  import opened Bytes
  import opened Framing
  import opened Record
  import opened LogFile
  import opened Segment
  import opened Layout

  ghost predicate Separate(segs: seq<Segment>)
  {
    forall i, j :: 0 <= i < j < |segs| ==>
      segs[i] != segs[j] && segs[i].writer != segs[j].writer && segs[i].index != segs[j].index
  }

  ghost predicate Within(segs: seq<Segment>, repr: set<object>)
  {
    forall i :: 0 <= i < |segs| ==> segs[i] in repr && segs[i].writer in repr && segs[i].index in repr
  }

  /** `parts` lists what the segments hold, and all but the last are wholly on disk. */
  ghost predicate Holding(segs: seq<Segment>, repr: set<object>, parts: seq<Part>)
    requires Within(segs, repr)
    reads repr
  {
    && |parts| == |segs|
    && (forall i :: 0 <= i < |segs| ==> segs[i].Valid() && segs[i].base == parts[i].base && segs[i].msgs == parts[i].msgs)
    && (forall i :: 0 <= i < |segs| - 1 ==> segs[i].File() == EncodeAll(parts[i].msgs))
  }

  lemma {:induction false} HoldingSuffix(segs: seq<Segment>, repr: set<object>, parts: seq<Part>, k: nat)
    requires Within(segs, repr) && Separate(segs) && Holding(segs, repr, parts) && k <= |segs|
    ensures Within(segs[k..], repr) && Separate(segs[k..]) && Holding(segs[k..], repr, parts[k..])
  {
    hide Segment.Valid, EncodeAll;
  }

  datatype AppendResult = AppendOk(sequence: U64, offset: nat) | AppendFailed
  datatype OpenResult = Opened(reader: MultiSegmentReader) | SequenceTooOld

  class SegmentManager {
    const maxSegmentBytes: int
    const indexInterval: int
    const retentionBytes: int
    const ageLimited: bool
    var segments: seq<Segment>
    var active: Segment
    var lastSeq: U64
    /** What the segments hold, and the messages of those that retention removed. */
    ghost var parts: seq<Part>
    ghost var gone: seq<Message>
    ghost var Owned: set<object>

    /** Opens a log in an empty directory: one segment with base 0. */
    constructor (maxSegmentBytes: int, indexInterval: int, retentionBytes: int, ageLimited: bool)
      requires maxSegmentBytes > 0
      ensures Valid() && fresh(Owned) && parts == [Part(0, [])] && gone == []
      ensures this.maxSegmentBytes == maxSegmentBytes && this.retentionBytes == retentionBytes && this.ageLimited == ageLimited
    {
      hide Segment.Valid, Encode, EncodeAll, Whole, LaidOut, Increasing;
      this.maxSegmentBytes, this.indexInterval := maxSegmentBytes, indexInterval;
      this.retentionBytes, this.ageLimited := retentionBytes, ageLimited;
      var first := new Segment(0, indexInterval);
      segments, active, lastSeq := [first], first, 0;
      gone, parts, Owned := [], [Part(0, [])], {first, first.writer, first.index};
      EmptyLog();
    }

    ghost predicate Valid()
      reads this, Owned
    {
      && this !in Owned
      && maxSegmentBytes > 0
      && segments != [] && active == segments[|segments| - 1]
      && Separate(segments) && Within(segments, Owned) && Holding(segments, Owned, parts)
      && LaidOut(gone, parts)
      && Increasing(Log()) && lastSeq == LastOf(Log())
    }

    ghost function File(i: nat): seq<Byte>
      requires Valid() && i < |segments|
      reads this, Owned
    {
      segments[i].File()
    }

    ghost function Files(): (r: seq<seq<Byte>>)
      requires Valid()
      reads this, Owned
      ensures |r| == |segments| && forall i :: 0 <= i < |r| ==> r[i] == File(i)
    {
      seq(|segments|, i requires 0 <= i < |segments| && Valid() reads this, Owned => File(i))
    }

    lemma {:induction false} SegmentAt(i: nat)
      requires Valid() && i < |segments|
      ensures segments[i].Valid() && segments[i].File() == File(i)
      ensures |parts| == |segments| && segments[i] in Owned && segments[i].writer in Owned && segments[i].index in Owned
    {
    }

    lemma {:induction false} HeldAt(i: nat)
      requires Valid() && i < |segments| == |parts|
      ensures segments[i].msgs == parts[i].msgs
    {
    }

    lemma {:induction false} LastIsCurrent()
      requires Valid()
      ensures lastSeq == LastOf(Log())
    {
    }

    lemma {:induction false} ActiveBase()
      requires Valid()
      ensures parts != [] && |parts| == |segments| && active.base == parts[|parts| - 1].base
      ensures active.Valid() && active.msgs == parts[|parts| - 1].msgs && File(|segments| - 1) == active.File()
      ensures active.currentSize == |EncodeAll(active.msgs)|
    {
      hide Segment.Valid, LaidOut, EncodeAll, Whole;
      SegmentAt(|segments| - 1);
      active.SizeOfMessages();
    }

    lemma {:induction false} FilesFlushed()
      requires Valid()
      ensures Flushed(parts, Files(), |File(|segments| - 1)|)
    {
      hide Segment.Valid, LaidOut, EncodeAll, Whole;
      forall i | 0 <= i < |segments|
        ensures AllStorable(parts[i].msgs)
      {
        segments[i].SizeOfMessages();
      }
      active.SizeOfMessages();
    }

    /** The log without the records still buffered, wholly or in part, in the active segment. */
    ghost function VisibleLog(): seq<Message>
      requires Valid()
      reads this, Owned
    {
      FilesFlushed();
      Whole(gone, VisibleParts(parts, |File(|segments| - 1)|))
    }

    /** Nothing is visible that is not in the log, and nothing before a visible message is missing. */
    lemma {:induction false} VisibleIsPrefix()
      requires Valid()
      ensures VisibleLog() <= Log()
      ensures File(|segments| - 1) == EncodeAll(active.msgs) ==> VisibleLog() == Log()
    {
      hide Segment.Valid, LaidOut, EncodeAll, Separate, Within;
      FilesFlushed();
      var n := |File(|segments| - 1)|;
      VisiblePrefix(gone, parts, n);
      if File(|segments| - 1) == EncodeAll(active.msgs) {
        FullyFlushed(parts, Files());
      }
    }

    /** Every message ever appended, in order. */
    ghost function Log(): seq<Message>
      reads this
    {
      Whole(gone, parts)
    }

    /** Closes the active segment and starts one whose base is the next message's sequence. */
    method Roll(base: U64)
      requires Valid() && active.msgs != [] && Below(Log(), base)
      modifies this, Owned
      ensures Valid() && fresh(Owned - old(Owned))
      ensures gone == old(gone) && parts == old(parts) + [Part(base, [])] && Log() == old(Log()) && lastSeq == old(lastSeq)
      ensures active.base == base && active.currentSize == 0 && fresh(active)
    {
      hide Segment.Valid, LaidOut, EncodeAll, Whole, Below, Separate;
      StartSegment(gone, parts, base);
      Sync();
      var next := new Segment(base, indexInterval);
      Install(next);
    }

    method Install(next: Segment)
      requires Valid() && File(|segments| - 1) == EncodeAll(active.msgs)
      requires next.Valid() && next.msgs == [] && {next, next.writer, next.index} !! Owned
      requires LaidOut(gone, parts + [Part(next.base, [])]) && Whole(gone, parts + [Part(next.base, [])]) == Log()
      modifies this
      ensures Valid() && Owned == old(Owned) + {next, next.writer, next.index}
      ensures gone == old(gone) && parts == old(parts) + [Part(next.base, [])] && lastSeq == old(lastSeq)
      ensures active == next
    {
      hide Segment.Valid, LaidOut, EncodeAll, Whole;
      Owned := Owned + {next, next.writer, next.index};
      segments, parts := segments + [next], parts + [Part(next.base, [])];
      active := next;
    }

    /** Appends one message, rolling first when the active segment is full. */
    method Append(m: Message) returns (r: AppendResult)
      requires Valid()
      requires |m.payload| < TWO_32 && active.currentSize < TWO_63
      requires Below(Log(), m.sequence) && active.base <= m.sequence
      modifies this, Owned
      ensures Valid() && fresh(Owned - old(Owned))
      ensures r.AppendOk? <==> |m.topic| <= MAX_TOPIC
      ensures r.AppendOk? ==> r.sequence == m.sequence && Log() == old(Log()) + [m] && lastSeq == m.sequence
      ensures r.AppendFailed? ==> Log() == old(Log()) && lastSeq == old(lastSeq)
      ensures old(parts) != [] && gone == old(gone)
      ensures parts == ExtendedParts(RolledParts(old(parts), m.sequence, maxSegmentBytes), m)
      ensures old(active.Valid()) && active.Valid()
      ensures active == old(active) && old(active.currentSize) + |Encode(m)| <= |old(active.File())| + BUFFER_BYTES ==> |active.File()| == |old(active.File())|
      ensures active == old(active) <==> old(active.currentSize) < maxSegmentBytes
      ensures active.base == old(active.base) || active.base == m.sequence
      ensures active.currentSize <= old(active.currentSize) + |Encode(m)|
    {
      hide Segment.Valid, LaidOut, EncodeAll, Encode, Whole, Holding, Separate, Within;
      SegmentAt(|segments| - 1);
      HeldAt(|segments| - 1);
      active.SizeOfMessages();
      if active.currentSize >= maxSegmentBytes {
        Roll(m.sequence);
      }
      r := AppendActive(m);
    }

    method AppendActive(m: Message) returns (r: AppendResult)
      requires Valid()
      requires |m.payload| < TWO_32 && active.currentSize < TWO_63
      requires Below(Log(), m.sequence) && active.base <= m.sequence
      modifies this, Owned
      ensures Valid() && Owned == old(Owned)
      ensures r.AppendOk? <==> |m.topic| <= MAX_TOPIC
      ensures r.AppendOk? ==> r.sequence == m.sequence && Log() == old(Log()) + [m] && lastSeq == m.sequence
      ensures r.AppendFailed? ==> Log() == old(Log()) && lastSeq == old(lastSeq)
      ensures gone == old(gone) && active == old(active)
      ensures old(parts) != [] && parts == ExtendedParts(old(parts), m)
      ensures old(active.Valid()) && active.Valid()
      ensures old(active.currentSize) + |Encode(m)| <= |old(active.File())| + BUFFER_BYTES ==> |active.File()| == |old(active.File())|
      ensures active.currentSize <= old(active.currentSize) + |Encode(m)|
    {
      hide Segment.Valid, LaidOut, EncodeAll, Encode, Whole, Separate, Holding, Within;
      ActiveBase();
      PartBelow(gone, parts, m.sequence, |parts| - 1);
      ExtendLast(gone, parts, m);
      var placed := StoreActive(m);
      if placed.Rejected? {
        return AppendFailed;
      }
      lastSeq := m.sequence;
      return AppendOk(m.sequence, placed.offset);
    }

    /** The effect of an append on the segments alone. */
    method StoreActive(m: Message) returns (placed: Placed)
      requires segments != [] && active == segments[|segments| - 1] && this !in Owned
      requires Separate(segments) && Within(segments, Owned) && Holding(segments, Owned, parts)
      requires |m.payload| < TWO_32 && active.currentSize < TWO_63 && Below(parts[|parts| - 1].msgs, m.sequence)
      modifies this, Owned
      ensures segments == old(segments) && active == old(active) && Owned == old(Owned)
      ensures gone == old(gone) && lastSeq == old(lastSeq)
      ensures Holding(segments, Owned, parts)
      ensures placed.Placed? <==> |m.topic| <= MAX_TOPIC
      ensures old(active.Valid()) && active.Valid()
      ensures old(active.currentSize) + |Encode(m)| <= |old(active.File())| + BUFFER_BYTES ==> |active.File()| == |old(active.File())|
      ensures active.currentSize <= old(active.currentSize) + |Encode(m)|
      ensures var n, was := |segments| - 1, old(parts);
              parts == if placed.Placed? then was[n := Part(was[n].base, was[n].msgs + [m])] else was
    {
      hide Segment.Valid, EncodeAll, Encode;
      ghost var n := |segments| - 1;
      placed := active.Append(m);
      forall i | 0 <= i < n
        ensures segments[i].Valid() && segments[i].msgs == parts[i].msgs && segments[i].File() == EncodeAll(parts[i].msgs)
      {
        assert old(segments[i].Valid());
      }
      parts := parts[n := Part(active.base, active.msgs)];
    }

    method Sync()
      requires Valid()
      modifies this, Owned
      ensures Valid() && Owned == old(Owned) && segments == old(segments) && active == old(active)
      ensures gone == old(gone) && parts == old(parts) && lastSeq == old(lastSeq)
      ensures active.currentSize == old(active.currentSize)
      ensures File(|segments| - 1) == EncodeAll(active.msgs)
    {
      hide Segment.Valid, LaidOut, EncodeAll, Whole;
      active.Sync();
    }

    /** The sum of the segments' sizes. */
    method TotalSize() returns (total: nat)
      requires Valid()
      ensures total == TotalBytes(parts)
    {
      hide Segment.Valid, LaidOut, EncodeAll, Whole;
      total := 0;
      for i := 0 to |segments|
        invariant total == TotalBytes(parts[..i])
      {
        segments[i].SizeOfMessages();
        TotalBytesSnoc(parts, i);
        total := total + segments[i].currentSize;
      }
      assert parts[..|segments|] == parts;
    }

    method CountExpired(aged: seq<bool>) returns (toRemove: nat)
      requires Valid() && |aged| == |segments|
      ensures |parts| == |segments| && toRemove == FirstKept(parts, retentionBytes, ageLimited, aged, 0)
      ensures toRemove + 1 < |parts| ==> |EncodeAll(AllMsgs(parts[toRemove..]))| <= retentionBytes && !(ageLimited && aged[toRemove])
      ensures forall j :: 0 <= j < toRemove ==> |EncodeAll(AllMsgs(parts[j..]))| > retentionBytes || (ageLimited && aged[j])
    {
      hide Segment.Valid, LaidOut, EncodeAll, Whole, Holding, Separate, Within, TotalBytes;
      var total := TotalSize();
      SegmentAt(0);
      toRemove := 0;
      assert parts[0..] == parts;
      while toRemove < |segments| - 1 && (total > retentionBytes || (ageLimited && aged[toRemove]))
        invariant toRemove < |segments| == |parts|
        invariant total == TotalBytes(parts[toRemove..])
        invariant FirstKept(parts, retentionBytes, ageLimited, aged, 0) == FirstKept(parts, retentionBytes, ageLimited, aged, toRemove)
      {
        SegmentAt(toRemove);
        HeldAt(toRemove);
        segments[toRemove].SizeOfMessages();
        TotalBytesSnoc(parts, toRemove);
        total := total - segments[toRemove].currentSize;
        toRemove := toRemove + 1;
      }
      RetentionIs(parts, retentionBytes, ageLimited, aged, 0);
    }

    /**
     Removes the longest run of expired segments from the old end, never the active one. The
     log as a whole, removed part included, does not change. `aged` is the age test.
     */
    method EnforceRetention(aged: seq<bool>) returns (ghost removed: nat)
      requires Valid() && |aged| == |segments|
      modifies this
      ensures Valid() && Owned == old(Owned) && Log() == old(Log()) && active == old(active) && lastSeq == old(lastSeq)
      ensures |old(parts)| == |old(segments)| && removed == FirstKept(old(parts), retentionBytes, ageLimited, aged, 0)
      ensures removed + 1 < |old(parts)| ==>
                |EncodeAll(AllMsgs(old(parts)[removed..]))| <= retentionBytes && !(ageLimited && aged[removed])
      ensures forall j :: 0 <= j < removed ==>
                |EncodeAll(AllMsgs(old(parts)[j..]))| > retentionBytes || (ageLimited && aged[j])
      ensures segments == old(segments)[removed..] && parts == old(parts)[removed..]
      ensures gone == old(gone) + AllMsgs(old(parts)[..removed])
    {
      hide Segment.Valid, LaidOut, EncodeAll, Whole, FirstKept, Separate, Within;
      var toRemove := CountExpired(aged);
      removed := toRemove;
      RemoveOldest(gone, parts, removed);
      HoldingSuffix(segments, Owned, parts, removed);
      gone, parts := gone + AllMsgs(parts[..removed]), parts[removed..];
      segments := segments[toRemove..];
    }

    /** The newest segment whose base does not exceed `start`, or -1. */
    method FindSegment(start: U64) returns (i: int)
      requires Valid()
      ensures -1 <= i < |segments| == |parts|
      ensures i == -1 <==> start < parts[0].base
      ensures i >= 0 ==> parts[i].base <= start
      ensures i + 1 < |segments| ==> parts[i + 1].base > start
    {
      hide Segment.Valid, LaidOut, EncodeAll, Whole;
      i := |segments| - 1;
      while i >= 0 && segments[i].base > start
        invariant -1 <= i < |segments|
        invariant i + 1 < |segments| ==> parts[i + 1].base > start
      {
        i := i - 1;
      }
      if i > 0 {
        BasesIncrease(gone, parts, 0, i);
      }
    }

    lemma {:induction false} ReadsFrom(k: nat, start: U64)
      requires Valid()
      requires k < |segments| && parts[k].base <= start && (k + 1 < |segments| ==> start < parts[k + 1].base)
      ensures From(Readable(File(k)), start) + ReadableFrom(Files(), k + 1) == From(StoredAll(VisibleLog()), start)
    {
      hide Segment.Valid, LaidOut, EncodeAll, Whole, Flushed, Readable, From;
      FilesFlushed();
      NoSilentGap(gone, parts, Files(), |File(|segments| - 1)|, k, start);
    }

    /**
     Opens a reader that will return every visible message ever appended from `start` on, or
     reports that `start` lies before the oldest segment kept.
     */
    method NewReader(start: U64) returns (r: OpenResult)
      requires Valid()
      ensures r.SequenceTooOld? <==> start < parts[0].base
      ensures r.Opened? ==> fresh(r.reader) && r.reader.manager == this && r.reader.current == null
      ensures r.Opened? ==> r.reader.Ready() && r.reader.Remaining() == From(StoredAll(VisibleLog()), start)
    {
      hide Valid, Files, File, Messages, From, VisibleLog;
      var i := FindSegment(start);
      if i == -1 {
        return SequenceTooOld;
      }
      ReadsFrom(i, start);
      var reader := new MultiSegmentReader(this, i, start);
      return Opened(reader);
    }
  }

  lemma {:induction false} EmptyLog()
    ensures LaidOut([], [Part(0, [])]) && Whole([], [Part(0, [])]) == [] && Increasing([])
  {
    AllMsgsOne(Part(0, []));
  }

  ghost function LastOf(ms: seq<Message>): U64
  {
    if ms == [] then 0 else ms[|ms| - 1].sequence
  }

  /** A record taken off the front of the unread bytes is the first message still to come. */
  lemma {:induction false} NextMessage(b: seq<Byte>)
    ensures match Parse(b)
            case Parsed(m, size) => Messages(b).0 == [m] + Messages(b[size..]).0
            case _ => Messages(b).0 == []
  {
  }

  datatype Turn = Yield(view: View) | Again | Finished

  class MultiSegmentReader {
    const manager: SegmentManager
    var segmentIdx: nat
    var startSequence: U64
    var current: LogReader?

    constructor (manager: SegmentManager, segmentIdx: nat, start: U64)
      ensures this.manager == manager && this.segmentIdx == segmentIdx && startSequence == start && current == null
    {
      this.manager, this.segmentIdx, startSequence, current := manager, segmentIdx, start, null;
    }

    ghost predicate Ready()
      reads this, manager, manager.Owned, current
    {
      && manager.Valid() && this !in manager.Owned
      && segmentIdx < |manager.segments|
      && (current != null ==> current !in manager.Owned && current.scratch !in manager.Owned)
    }

    /** What is still to be read from the current segment. */
    ghost function Ahead(): seq<Byte>
      requires Ready()
      reads this, manager, manager.Owned, current
    {
      if current == null then manager.File(segmentIdx) else current.Unread()
    }

    /** The messages this reader will return, as long as the log does not change. */
    ghost function Remaining(): seq<Message>
      requires Ready()
      reads this, manager, manager.Owned, current
    {
      From(Messages(Ahead()).0, startSequence) + ReadableFrom(manager.Files(), segmentIdx + 1)
    }

    /** Opens the current segment at the first record that may be wanted. */
    method OpenSegment()
      requires Ready() && current == null
      modifies this`current
      ensures Ready() && current != null && fresh(current) && fresh(current.scratch)
      ensures Remaining() == old(Remaining())
    {
      hide Segment.Valid, EncodeAll, Whole, Holding, LaidOut, Messages, From, Separate;
      manager.SegmentAt(segmentIdx);
      var reader := manager.segments[segmentIdx].ReadAt(startSequence);
      current := reader;
    }

    /** One read from the current segment. */
    method Step() returns (r: ReadResult)
      requires Ready() && current != null
      modifies current, current.scratch
      ensures Ready() && (current.scratch == old(current.scratch) || fresh(current.scratch))
      ensures match r
              case Got(view) =>
                && view.buffer == current.scratch && view.Valid()
                && Messages(old(Ahead())).0 == [view.Value()] + Messages(Ahead()).0
                && |Ahead()| < |old(Ahead())|
              case _ => Messages(old(Ahead())).0 == []
    {
      hide Segment.Valid, EncodeAll, Whole, Holding, LaidOut, From, Separate, Within;
      NextMessage(Ahead());
      r := current.Next();
    }

    /** Moves on to the next segment, to be read from its beginning. */
    method Advance()
      requires Ready() && segmentIdx + 1 < |manager.segments|
      modifies this
      ensures Ready() && current == null && segmentIdx == old(segmentIdx) + 1
      ensures Remaining() == ReadableFrom(manager.Files(), old(segmentIdx) + 1)
    {
      hide Segment.Valid, EncodeAll, Whole, Holding, LaidOut, Separate, Within, Messages;
      current, segmentIdx, startSequence := null, segmentIdx + 1, 0;
      FromAll(Messages(manager.File(segmentIdx)).0, 0);
    }

    ghost function Own(): set<object>
      reads this, current
    {
      if current == null then {this} else {this, current as object, current.scratch}
    }

    /** One pass of the read loop over an open segment: a message, a reason to go round again, or the end. */
    method PassOpen() returns (t: Turn)
      requires Ready() && current != null
      modifies Own()
      ensures Ready() && fresh(Own() - old(Own()))
      ensures t.Yield? ==> t.view.buffer in Own() && t.view.Valid() && old(Remaining()) == [t.view.Value()] + Remaining()
      ensures t.Finished? ==> old(Remaining()) == []
      ensures t.Again? ==> Remaining() == old(Remaining())
      ensures t.Again? ==> segmentIdx > old(segmentIdx) || (segmentIdx == old(segmentIdx) && current != null && |Ahead()| < |old(Ahead())|)
    {
      hide SegmentManager.Valid, SegmentManager.Files, SegmentManager.File, Messages, From, ReadableFrom;
      var r := Step();
      if !r.Got? {
        FromEmpty(Messages(old(Ahead())).0, startSequence);
        if segmentIdx < |manager.segments| - 1 {
          Advance();
          return Again;
        }
        EndOfFiles(manager.Files(), segmentIdx);
        return Finished;
      }
      FromCons(r.view.Value(), Messages(Ahead()).0, startSequence);
      if r.view.sequence < startSequence {
        return Again;
      }
      return Yield(r.view);
    }

    method Pass() returns (t: Turn)
      requires Ready()
      modifies Own()
      ensures Ready() && fresh(Own() - old(Own()))
      ensures t.Yield? ==> t.view.buffer in Own() && t.view.Valid() && old(Remaining()) == [t.view.Value()] + Remaining()
      ensures t.Finished? ==> old(Remaining()) == []
      ensures t.Again? ==>
                && Remaining() == old(Remaining()) && segmentIdx >= old(segmentIdx)
                && (segmentIdx == old(segmentIdx) ==>
                      current != null && (old(current) == null || |Ahead()| < |old(Ahead())|))
    {
      hide SegmentManager.Valid, SegmentManager.Files, SegmentManager.File, Remaining;
      if current == null {
        OpenSegment();
      }
      t := PassOpen();
    }

    /**
     The next message in log order, crossing segment boundaries and torn tails, until the
     newest segment is exhausted.
     */
    method Next() returns (t: Turn)
      requires Ready()
      modifies Own()
      ensures Ready() && fresh(Own() - old(Own()))
      ensures t.Yield? ==> t.view.buffer in Own() && t.view.Valid() && old(Remaining()) == [t.view.Value()] + Remaining()
      ensures t.Finished? ==> old(Remaining()) == []
      ensures !t.Again?
    {
      hide Remaining, SegmentManager.Valid;
      t := Again;
      while t.Again?
        invariant Ready() && fresh(Own() - old(Own()))
        invariant t.Again? ==> Remaining() == old(Remaining())
        invariant t.Yield? ==> t.view.buffer in Own() && t.view.Valid() && old(Remaining()) == [t.view.Value()] + Remaining()
        invariant t.Finished? ==> old(Remaining()) == []
        decreases t.Again?, |manager.segments| - segmentIdx, current == null, |Ahead()|
      {
        t := Pass();
      }
    }
  }

  lemma {:induction false} EndOfFiles(files: seq<seq<Byte>>, i: nat)
    requires i + 1 >= |files|
    ensures ReadableFrom(files, i + 1) == []
  {
  }

  lemma {:induction false} FromEmpty(ms: seq<Message>, start: int)
    requires ms == []
    ensures From(ms, start) == []
  {
  }

  lemma {:induction false} FromCons(m: Message, rest: seq<Message>, start: int)
    ensures From([m] + rest, start) == (if m.sequence >= start then [m] else []) + From(rest, start)
  {
    FromAppend([m], rest, start);
    FromAppend([], [m], start);
  }
}
