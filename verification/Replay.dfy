/**
 Replay from the log (internal/replay): an iterator bounded above by the sequence that was
 current when the client connected, and the service that copies its messages out of the
 reader's scratch buffer.
 */
module Replay {
  import opened Bytes
  import opened Record
  import opened LogFile
  import opened Segment
  import opened Layout
  import opened Manager

  /** The leading messages up to and including sequence `end`. */
  function UpTo(ms: seq<Message>, end: int): seq<Message>
  {
    if ms == [] || ms[0].sequence > end then [] else [ms[0]] + UpTo(ms[1..], end)
  }

  /** What is left once the leading messages below `start` are skipped. */
  function SkipBelow(ms: seq<Message>, start: int): seq<Message>
  {
    if ms == [] || ms[0].sequence >= start then ms else SkipBelow(ms[1..], start)
  }

  /** The messages with sequence between `lo` and `hi`, in order. */
  function InRange(ms: seq<Message>, lo: int, hi: int): seq<Message>
  {
    if ms == [] then []
    else (if lo <= ms[0].sequence <= hi then [ms[0]] else []) + InRange(ms[1..], lo, hi)
  }

  lemma {:induction false} InRangeHas(ms: seq<Message>, lo: int, hi: int, m: Message)
    ensures m in InRange(ms, lo, hi) <==> m in ms && lo <= m.sequence <= hi
  {
    if ms == [] {
    } else {
      InRangeHas(ms[1..], lo, hi, m);
    }
  }

  lemma {:induction false} FromAtLeast(ms: seq<Message>, start: int)
    ensures AtLeast(From(ms, start), start)
  {
    if ms == [] {
    } else {
      FromAtLeast(ms[1..], start);
    }
  }

  lemma {:induction false} SkipNothing(ms: seq<Message>, start: int)
    requires AtLeast(ms, start)
    ensures SkipBelow(ms, start) == ms
  {
  }

  lemma {:induction false} InRangeNone(ms: seq<Message>, lo: int, hi: int)
    requires AtLeast(ms, hi + 1)
    ensures InRange(ms, lo, hi) == []
  {
    if ms == [] {
    } else {
      InRangeNone(ms[1..], lo, hi);
    }
  }

  lemma {:induction false} UpToNone(ms: seq<Message>, start: int, end: int)
    requires AtLeast(ms, end + 1)
    ensures UpTo(From(ms, start), end) == []
  {
    if ms == [] {
    } else {
      UpToNone(ms[1..], start, end);
      if ms[0].sequence < start {
        assert From(ms, start) == From(ms[1..], start);
      }
    }
  }

  /** On an increasing log the bounded iterator visits exactly the range. */
  lemma {:induction false} UpToIsRange(ms: seq<Message>, start: int, end: int)
    requires Increasing(ms)
    ensures UpTo(From(ms, start), end) == InRange(ms, start, end)
  {
    if ms == [] {
    } else {
      UpToIsRange(ms[1..], start, end);
      if ms[0].sequence > end {
        InRangeNone(ms[1..], start, end);
        UpToNone(ms, start, end);
      } else if ms[0].sequence < start {
        assert From(ms, start) == From(ms[1..], start);
      } else {
        var rest := From(ms[1..], start);
        assert From(ms, start) == [ms[0]] + rest;
        assert UpTo([ms[0]] + rest, end) == [ms[0]] + UpTo(rest, end);
      }
    }
  }

  // ---------- Iterator ----------

  datatype Queued = Queued(view: View) | Nothing

  class WalIterator {
    const reader: MultiSegmentReader
    const endSequence: U64
    var nextMsg: Queued
    var done: bool

    constructor (reader: MultiSegmentReader, endSequence: U64)
      ensures this.reader == reader && this.endSequence == endSequence && nextMsg == Nothing && !done
    {
      this.reader, this.endSequence, nextMsg, done := reader, endSequence, Nothing, false;
    }

    /** The iterator's objects: itself, its reader and the reader's scratch buffer. */
    ghost function Own(): set<object>
      reads this, reader, reader.current
    {
      {this} + reader.Own()
    }

    ghost predicate Ready()
      reads this, reader, reader.manager, reader.manager.Owned, reader.current
    {
      && reader.Ready() && this as object !in reader.Own() && this !in reader.manager.Owned
      && reader.manager !in Own()
      && (nextMsg.Queued? ==> nextMsg.view.Valid() && nextMsg.view.buffer in reader.Own())
    }

    ghost function Buffer(): set<object>
      reads this
    {
      if nextMsg.Queued? then {nextMsg.view.buffer} else {}
    }

    /** Every message not yet handed out, ignoring the upper bound. */
    ghost function Rest(): seq<Message>
      requires Ready()
      reads this, reader, reader.manager, reader.manager.Owned, reader.current, Buffer()
    {
      (if nextMsg.Queued? then [nextMsg.view.Value()] else []) + reader.Remaining()
    }

    /** The messages `Next` will return. */
    ghost function Pending(): seq<Message>
      requires Ready()
      reads this, reader, reader.manager, reader.manager.Owned, reader.current, Buffer()
    {
      if done then [] else UpTo(Rest(), endSequence)
    }

    /** Skips to the first message at or after `start` and queues it. */
    method FastForward(start: U64)
      requires Ready() && nextMsg == Nothing && !done
      modifies Own()
      ensures Ready() && fresh(Own() - old(Own()))
      ensures Pending() == UpTo(SkipBelow(old(Rest()), start), endSequence)
    {
      hide MultiSegmentReader.Remaining, MultiSegmentReader.Ready;
      assert Rest() == reader.Remaining();
      while true
        invariant Ready() && fresh(Own() - old(Own())) && nextMsg == Nothing && !done
        invariant SkipBelow(reader.Remaining(), start) == SkipBelow(old(Rest()), start)
        decreases |reader.Remaining()|
      {
        ghost var before := reader.Remaining();
        var t := reader.Next();
        if t.Finished? {
          done := true;
          return;
        }
        assert before[0] == t.view.Value() && before[1..] == reader.Remaining();
        if t.view.sequence >= start {
          nextMsg := Queued(t.view);
          return;
        }
      }
    }

    method Next() returns (t: Turn)
      requires Ready()
      modifies Own()
      ensures Ready() && fresh(Own() - old(Own()))
      ensures t.Yield? ==> t.view.Valid() && t.view.buffer in Own() && old(Pending()) == [t.view.Value()] + Pending()
      ensures t.Finished? ==> old(Pending()) == [] && Pending() == []
      ensures !t.Again?
    {
      hide MultiSegmentReader.Remaining, MultiSegmentReader.Ready;
      if done {
        return Finished;
      }
      assert nextMsg.Nothing? ==> Rest() == reader.Remaining();
      if nextMsg.Queued? {
        t := Yield(nextMsg.view);
        nextMsg := Nothing;
      } else {
        t := reader.Next();
      }
      if t.Finished? || t.view.sequence > endSequence {
        done := true;
        return Finished;
      }
      assert Rest() == reader.Remaining();
      UpToCons(t.view.Value(), reader.Remaining(), endSequence);
    }
  }

  lemma {:induction false} UpToCons(m: Message, rest: seq<Message>, end: int)
    requires m.sequence <= end
    ensures UpTo([m] + rest, end) == [m] + UpTo(rest, end)
  {
  }

  // ---------- Engine and service ----------

  datatype StartResult = Started(iter: WalIterator) | StartTooOld

  /** An iterator over the visible log from `resumeFrom` to `end`, both included. */
  method Start(log: SegmentManager, resumeFrom: U64, end: U64) returns (r: StartResult)
    requires log.Valid()
    ensures r.StartTooOld? <==> resumeFrom < log.parts[0].base
    ensures r.Started? ==> r.iter.Ready() && r.iter.reader.manager == log && fresh(r.iter.Own())
    ensures r.Started? ==> r.iter.Pending() == UpTo(From(StoredAll(log.VisibleLog()), resumeFrom), end)
  {
    hide SegmentManager.Valid, SegmentManager.VisibleLog, MultiSegmentReader.Remaining, From, StoredAll, UpTo, SkipBelow, AtLeast;
    var found := log.NewReader(resumeFrom);
    if found.SequenceTooOld? {
      return StartTooOld;
    }
    ghost var all := found.reader.Remaining();
    FromAtLeast(StoredAll(log.VisibleLog()), resumeFrom);
    SkipNothing(all, resumeFrom);
    var iter := new WalIterator(found.reader, end);
    assert iter.Rest() == all;
    iter.FastForward(resumeFrom);
    return Started(iter);
  }

  /** Copies a message out of the scratch buffer, so that later reads cannot change it. */
  method CopyOut(v: View) returns (c: View)
    requires v.Valid()
    ensures fresh(c.buffer) && c.Valid() && c.Value() == v.Value()
  {
    var payload := new Byte[v.hi - v.lo](i requires 0 <= i < v.hi - v.lo && v.Valid() reads v.buffer => v.buffer[v.lo + i]);
    c := View(v.sequence, v.timestamp, v.topic, payload, 0, v.hi - v.lo);
    assert payload[..] == v.buffer[v.lo..v.hi];
  }

  /** The views hold exactly these messages, each in a buffer outside `others`. */
  ghost predicate Shows(views: seq<View>, ms: seq<Message>, others: set<object>)
    reads set v | v in views :: v.buffer
  {
    && |views| == |ms|
    && forall i :: 0 <= i < |views| ==>
         views[i] in views && views[i].Valid() && views[i].Value() == ms[i] && views[i].buffer !in others
  }

  /** The next message of the iterator, copied. */
  method NextCopy(iter: WalIterator) returns (t: Turn)
    requires iter.Ready()
    modifies iter.Own()
    ensures iter.Ready() && fresh(iter.Own() - old(iter.Own())) && !t.Again?
    ensures t.Yield? ==> fresh(t.view.buffer) && t.view.buffer !in iter.Own()
    ensures t.Yield? ==> t.view.Valid() && old(iter.Pending()) == [t.view.Value()] + iter.Pending()
    ensures t.Finished? ==> old(iter.Pending()) == []
  {
    hide MultiSegmentReader.Remaining, MultiSegmentReader.Ready, UpTo;
    t := iter.Next();
    if t.Yield? {
      var copy := CopyOut(t.view);
      t := Yield(copy);
    }
  }

  /** Takes everything the iterator yields, copying each message. */
  method Collect(iter: WalIterator) returns (views: seq<View>)
    requires iter.Ready()
    modifies iter.Own()
    ensures Shows(views, old(iter.Pending()), {}) && forall v :: v in views ==> fresh(v.buffer)
  {
    hide WalIterator.Ready, WalIterator.Pending, WalIterator.Own, Shows;
    views := [];
    ghost var seen, grown: set<object> := [], {};
    NothingShown(iter.Own());
    var done := false;
    while !done
      invariant iter.Ready() && iter.Own() <= old(iter.Own()) + grown && fresh(grown)
      invariant old(iter.Pending()) == if done then seen else seen + iter.Pending()
      invariant Shows(views, seen, iter.Own()) && forall v :: v in views ==> fresh(v.buffer)
      decreases !done, if done then 0 else |iter.Pending()|
    {
      ghost var more;
      done, views, seen, more := CollectOne(iter, views, seen);
      grown := grown + more;
    }
    ShownApart(views, seen, iter.Own());
  }

  /** One more message into the collection, if there is one. */
  method CollectOne(iter: WalIterator, views: seq<View>, ghost seen: seq<Message>)
    returns (done: bool, views': seq<View>, ghost seen': seq<Message>, ghost more: set<object>)
    requires iter.Ready() && Shows(views, seen, iter.Own())
    modifies iter.Own()
    ensures iter.Ready() && iter.Own() <= old(iter.Own()) + more && fresh(more) && Shows(views', seen', iter.Own())
    ensures done ==> views' == views && seen' == seen && old(iter.Pending()) == []
    ensures !done ==> seen + old(iter.Pending()) == seen' + iter.Pending() && |iter.Pending()| < |old(iter.Pending())|
    ensures forall v :: v in views' ==> v in views || fresh(v.buffer)
  {
    hide WalIterator.Ready, WalIterator.Pending;
    done, views', seen' := false, views, seen;
    var t := NextCopy(iter);
    more := iter.Own() - old(iter.Own());
    if t.Finished? {
      done := true;
    } else {
      ghost var m := t.view.Value();
      assert seen + ([m] + iter.Pending()) == (seen + [m]) + iter.Pending();
      views', seen' := views + [t.view], seen + [m];
    }
  }

  lemma {:induction false} NothingShown(others: set<object>)
    ensures Shows([], [], others)
  {
  }

  lemma {:induction false} ShownApart(views: seq<View>, ms: seq<Message>, others: set<object>)
    requires Shows(views, ms, others)
    ensures Shows(views, ms, {})
  {
  }

  datatype ReplayResult = Replayed(messages: seq<View>) | LogEmpty | InFuture | TooOld | MissingSequence

  /**
   Replays from `resumeFrom` to the sequence `current` that was latest at the request: either
   every visible message in that range, the first being `resumeFrom` itself, or an error.
   */
  method Replay(log: SegmentManager, current: U64, resumeFrom: U64) returns (r: ReplayResult)
    requires log.Valid()
    ensures current == 0 ==> r == if resumeFrom > 0 then LogEmpty else Replayed([])
    ensures 0 < current < resumeFrom ==> r == InFuture
    ensures resumeFrom <= current && 0 < current && resumeFrom < log.parts[0].base ==> r == TooOld
    ensures log.parts[0].base <= resumeFrom <= current && 0 < current ==>
              var want := InRange(StoredAll(log.VisibleLog()), resumeFrom, current);
              if want == [] || want[0].sequence != resumeFrom then r == MissingSequence
              else r.Replayed? && Shows(r.messages, want, {}) && forall v :: v in r.messages ==> fresh(v.buffer)
  {
    hide SegmentManager.Valid, SegmentManager.VisibleLog, WalIterator.Ready, WalIterator.Pending, From, StoredAll;
    if current == 0 {
      return if resumeFrom > 0 then LogEmpty else Replayed([]);
    }
    if resumeFrom > current {
      return InFuture;
    }
    var started := Start(log, resumeFrom, current);
    if started.StartTooOld? {
      return TooOld;
    }
    ghost var want := InRange(StoredAll(log.VisibleLog()), resumeFrom, current);
    VisibleIncreasing(log);
    UpToIsRange(StoredAll(log.VisibleLog()), resumeFrom, current);
    InRangeAtLeast(StoredAll(log.VisibleLog()), resumeFrom, current);
    var messages := Collect(started.iter);
    if |messages| > 0 && messages[0].sequence > resumeFrom {
      return MissingSequence;
    }
    if |messages| == 0 {
      return MissingSequence;
    }
    return Replayed(messages);
  }

  lemma {:induction false} InRangeAtLeast(ms: seq<Message>, lo: int, hi: int)
    ensures AtLeast(InRange(ms, lo, hi), lo)
  {
    if ms == [] {
    } else {
      InRangeAtLeast(ms[1..], lo, hi);
    }
  }

  lemma {:induction false} VisibleIncreasing(log: SegmentManager)
    requires log.Valid()
    ensures Increasing(StoredAll(log.VisibleLog()))
  {
    log.VisibleIsPrefix();
  }

  // ---------- When the range is complete ----------

  lemma {:induction false} InRangeAppend(a: seq<Message>, b: seq<Message>, lo: int, hi: int)
    ensures InRange(a + b, lo, hi) == InRange(a, lo, hi) + InRange(b, lo, hi)
  {
    if a == [] {
      assert a + b == b;
    } else {
      assert (a + b)[1..] == a[1..] + b;
      InRangeAppend(a[1..], b, lo, hi);
    }
  }

  lemma {:induction false} InRangeSome(ms: seq<Message>, lo: int, hi: int) returns (i: nat)
    requires InRange(ms, lo, hi) != []
    ensures i < |ms| && lo <= ms[i].sequence <= hi
  {
    if lo <= ms[0].sequence <= hi {
      i := 0;
    } else {
      i := InRangeSome(ms[1..], lo, hi);
      i := i + 1;
    }
  }

  /** A prefix of an increasing log gives the whole of a range exactly when the next message is beyond it. */
  lemma {:induction false} RangeCompleteIff(vis: seq<Message>, whole: seq<Message>, lo: int, hi: int)
    requires vis <= whole && Increasing(whole) && InRange(vis, lo, hi) != []
    ensures InRange(vis, lo, hi) == InRange(whole, lo, hi) <==> |vis| == |whole| || whole[|vis|].sequence > hi
  {
    var rest := whole[|vis|..];
    assert whole == vis + rest;
    InRangeAppend(vis, rest, lo, hi);
    if rest == [] {
    } else if rest[0].sequence > hi {
      InRangeNone(rest, lo, hi);
    } else {
      var i := InRangeSome(vis, lo, hi);
      assert whole[i].sequence < whole[|vis|].sequence;
    }
  }

  /** Every message up to `current` has reached its file: the first that has not lies beyond it. */
  ghost predicate CoveredTo(log: SegmentManager, current: int)
    requires log.Valid()
    reads log, log.Owned
  {
    |log.VisibleLog()| >= |log.Log()| || log.Log()[|log.VisibleLog()|].sequence > current
  }

  /** A replay that succeeds returns the whole range of the log if and only if the log is flushed that far. */
  lemma {:induction false} ReplayCompleteIff(log: SegmentManager, resumeFrom: int, current: int)
    requires log.Valid() && InRange(StoredAll(log.VisibleLog()), resumeFrom, current) != []
    ensures InRange(StoredAll(log.VisibleLog()), resumeFrom, current) == InRange(StoredAll(log.Log()), resumeFrom, current)
            <==> CoveredTo(log, current)
  {
    hide SegmentManager.VisibleLog;
    log.VisibleIsPrefix();
    var vis, whole := log.VisibleLog(), log.Log();
    assert StoredAll(vis) <= StoredAll(whole);
    RangeCompleteIff(StoredAll(vis), StoredAll(whole), resumeFrom, current);
  }

  // ---------- A replay that stops short ----------

  /** Of two short records only the first is wholly inside the first one's bytes. */
  lemma {:induction false} FirstVisible(m: Message, m': Message, n: nat)
    requires n == |Encode(m)|
    ensures |EncodeAll([m])| == n <= |EncodeAll([m, m'])|
    ensures VisibleParts([Part(0, [m, m'])], n) == [Part(0, [m])]
  {
    hide Encode;
    EncodeSnoc([], m);
    EncodeSnoc([m], m');
    NothingEncoded();
    assert [] + [m] == [m] && [m] + [m'] == [m, m'];
    var k := WholeCount([m, m'], n);
    assert [m, m'][..0] == [] && [m, m'][..1] == [m] && [m, m'][..2] == [m, m'];
    assert k == 1;
  }

  /** Two short messages in the log, with only the first one flushed. */
  method HalfFlushed(m: Message, m': Message) returns (log: SegmentManager)
    requires m.topic == m.payload == m'.topic == m'.payload == [] && 0 < m.sequence < m'.sequence
    ensures log.Valid() && log.gone == [] && log.parts == [Part(0, [m, m'])] && log.lastSeq == m'.sequence
    ensures |log.segments| == 1 && |log.File(0)| == |Encode(m)|
  {
    hide SegmentManager.Valid, Segment.Valid, Encode, EncodeAll, AllMsgs;
    log := new SegmentManager(1000, 4096, 1000000, false);
    NothingEncoded();
    EncodeSnoc([], m);
    assert [] + [m] == [m] && [m] + [m'] == [m, m'];
    SmallRecords(m, m');
    AllMsgsOne(Part(0, []));
    AllMsgsOne(Part(0, [m]));
    log.ActiveBase();
    var first := log.Append(m);
    log.ActiveBase();
    log.Sync();
    log.ActiveBase();
    var second := log.Append(m');
    log.ActiveBase();
  }

  lemma {:induction false} HalfVisible(log: SegmentManager, m: Message, m': Message)
    requires log.Valid() && log.gone == [] && log.parts == [Part(0, [m, m'])]
    requires |log.segments| == 1 && |log.File(0)| == |Encode(m)|
    ensures log.VisibleLog() == [m] && log.Log() == [m, m']
  {
    hide SegmentManager.Valid, Encode, EncodeAll, AllMsgs, VisibleParts;
    FirstVisible(m, m', |Encode(m)|);
    AllMsgsOne(Part(0, [m]));
    AllMsgsOne(Part(0, [m, m']));
  }

  /**
   Two messages are appended, of which the second stays in the writer's buffer. Although sequence 2
   is current, a replay from 1 succeeds with message 1 alone.
   */
  method UnflushedReplay() returns (log: SegmentManager, r: ReplayResult)
    ensures log.Valid() && |log.Log()| == 2 && log.lastSeq == 2 && !CoveredTo(log, 2)
    ensures r.Replayed? && |r.messages| == 1
  {
    hide SegmentManager.Valid, SegmentManager.VisibleLog, SegmentManager.Log, Encode, EncodeAll;
    var m, m' := Message(1, 0, [], [], []), Message(2, 0, [], [], []);
    log := HalfFlushed(m, m');
    HalfVisible(log, m, m');
    assert StoredAll([m]) == [m];
    assert InRange([m], 1, 2) == [m] by { assert [m][1..] == []; }
    r := Replay(log, 2, 1);
  }

  lemma {:induction false} SmallRecords(m: Message, m': Message)
    requires m.topic == m.payload == m'.topic == m'.payload == []
    ensures |Encode(m)| == |Encode(m')| == 26
  {
  }
}
