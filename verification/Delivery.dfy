/**
 From the log to the client: a session that replays out of the log and then follows the live
 stream (internal/wal, internal/replay, internal/gateway/session.go taken together).
 */
module Delivery {
  import opened Bytes
  import opened Record
  import opened LogFile
  import opened Segment
  import opened Layout
  import opened Manager
  import opened LogRuns
  import Replay
  import Session

  /** What a replay can return of the log as it is on file. */
  ghost function Visible(log: SegmentManager, resumeFrom: int, current: int): seq<Message>
    requires log.Valid()
    reads log, log.Owned
  {
    Replay.InRange(StoredAll(log.VisibleLog()), resumeFrom, current)
  }

  /** The replay is accepted: the resume point is kept, not in the future, and on file. */
  ghost predicate Accepts(log: SegmentManager, resumeFrom: int, current: int)
    requires log.Valid()
    reads log, log.Owned
  {
    && log.parts != [] && log.parts[0].base <= resumeFrom <= current
    && Visible(log, resumeFrom, current) != [] && Visible(log, resumeFrom, current)[0].sequence == resumeFrom
  }

  /** Serves one client: the replay result arrives after the live messages `before` and ahead of `after`. */
  method Connect(log: SegmentManager, current: U64, resumeFrom: U64, before: seq<Message>, after: seq<Message>)
    returns (ok: bool, sent: seq<Message>)
    requires log.Valid() && 0 < current
    ensures ok == Accepts(log, resumeFrom, current)
    ensures sent == if ok then Session.Deliver(resumeFrom, Visible(log, resumeFrom, current) + (before + after)) else []
  {
    hide SegmentManager.Valid, SegmentManager.VisibleLog, Replay.InRange, Session.Deliver, Accepts, Visible;
    var replay;
    ok, replay := ReplayValues(log, current, resumeFrom);
    if ok {
      sent := RunSession(resumeFrom, replay, before, after);
    } else {
      sent := RefuseSession(resumeFrom, before, after);
    }
  }

  method ReplayValues(log: SegmentManager, current: U64, resumeFrom: U64) returns (ok: bool, ms: seq<Message>)
    requires log.Valid() && 0 < current
    ensures ok == Accepts(log, resumeFrom, current) && (ok ==> ms == Visible(log, resumeFrom, current))
  {
    hide SegmentManager.Valid, SegmentManager.VisibleLog, StoredAll, Replay.InRange;
    log.ActiveBase();
    var r := Replay.Replay(log, current, resumeFrom);
    ok, ms := r.Replayed?, [];
    if ok {
      ms := ValuesOf(r.messages);
      assert ms == Visible(log, resumeFrom, current);
    }
  }

  method RunSession(resumeFrom: U64, replay: seq<Message>, before: seq<Message>, after: seq<Message>) returns (sent: seq<Message>)
    ensures sent == Session.Deliver(resumeFrom, replay + (before + after))
  {
    hide Session.Run, Session.Deliver, Session.Lives;
    var session := new Session.Session(resumeFrom);
    session.RunLoop(Session.Lives(before) + [Session.ReplayDone(replay)] + Session.Lives(after));
    Session.Handover(resumeFrom, replay, before, after);
    return session.sendCh;
  }

  method RefuseSession(resumeFrom: U64, before: seq<Message>, after: seq<Message>) returns (sent: seq<Message>)
    ensures sent == []
  {
    hide Session.Run, Session.Lives;
    var session := new Session.Session(resumeFrom);
    session.RunLoop(Session.Lives(before) + [Session.ReplayFailed] + Session.Lives(after));
    Session.RefusedSendsNothing(resumeFrom, before, Session.Lives(after));
    return session.sendCh;
  }

  method ValuesOf(views: seq<View>) returns (ms: seq<Message>)
    requires forall i :: 0 <= i < |views| ==> views[i].Valid()
    ensures |ms| == |views| && forall i :: 0 <= i < |views| ==> ms[i] == views[i].Value()
  {
    ms := [];
    for i := 0 to |views|
      invariant |ms| == i && forall j :: 0 <= j < i ==> ms[j] == views[j].Value()
    {
      ms := ms + [views[i].Value()];
    }
  }

  // ---------- Gap-free exactly when the log is flushed ----------

  lemma {:induction false} StoredConsecutive(ms: seq<Message>, first: int)
    requires Session.Consecutive(ms, first)
    ensures Session.Consecutive(StoredAll(ms), first)
  {
  }

  /** What is on file of a hole-free log is hole-free and a prefix of it. */
  lemma {:induction false} VisibleConsecutive(log: SegmentManager, first: int)
    requires log.Valid() && Session.Consecutive(log.Log(), first)
    ensures log.VisibleLog() <= log.Log() && Session.Consecutive(StoredAll(log.VisibleLog()), first)
  {
    hide SegmentManager.Valid, SegmentManager.VisibleLog, SegmentManager.Log;
    log.VisibleIsPrefix();
    assert forall i :: 0 <= i < |log.VisibleLog()| ==> log.VisibleLog()[i] == log.Log()[i];
    StoredConsecutive(log.VisibleLog(), first);
  }

  /** A hole-free sequence of messages has a message for every number it spans. */
  lemma {:induction false} RangeStarts(ms: seq<Message>, first: int, lo: int, hi: int)
    requires Session.Consecutive(ms, first) && first <= lo <= hi && lo < first + |ms|
    ensures Replay.InRange(ms, lo, hi) != [] && Replay.InRange(ms, lo, hi)[0].sequence == lo
  {
    hide Replay.InRange;
    Session.RangeIsSlice(ms, first, lo, hi);
  }

  /** A range that starts where it should is a stretch of the sequence, up to its end or the bound. */
  lemma {:induction false} RangeStretch(ms: seq<Message>, first: int, lo: int, hi: int)
    requires Session.Consecutive(ms, first) && lo <= hi
    requires Replay.InRange(ms, lo, hi) != [] && Replay.InRange(ms, lo, hi)[0].sequence == lo
    ensures var want := Replay.InRange(ms, lo, hi);
            && first <= lo && lo - first + |want| <= |ms| && want == ms[lo - first..lo - first + |want|]
            && Session.Consecutive(want, lo)
            && lo + |want| == if hi + 1 < first + |ms| then hi + 1 else first + |ms|
  {
    hide Replay.InRange;
    Session.RangeIsSlice(ms, first, lo, hi);
    Session.ReplayIsConsecutive(ms, first, lo, hi);
  }

  /**
   On a hole-free log a replay reaches the end of the range or of what is on file. It reaches any
   sequence up to `current` exactly when the log is flushed that far.
   */
  lemma {:induction false} ReachesIffCovered(log: SegmentManager, first: int, resumeFrom: int, current: int, c: int)
    requires log.Valid() && Session.Consecutive(log.Log(), first) && current < first + |log.Log()|
    requires Accepts(log, resumeFrom, current) && c <= current
    ensures var want := Visible(log, resumeFrom, current);
            && Session.Consecutive(want, resumeFrom) && resumeFrom + |want| <= current + 1
            && (resumeFrom + |want| > c <==> Replay.CoveredTo(log, c))
  {
    hide SegmentManager.Valid, SegmentManager.VisibleLog, SegmentManager.Log, Replay.InRange;
    VisibleConsecutive(log, first);
    RangeStretch(StoredAll(log.VisibleLog()), first, resumeFrom, current);
  }

  /** A flushed, hole-free log accepts every resume point it has kept. */
  lemma {:induction false} CoveredAccepts(log: SegmentManager, first: int, resumeFrom: int, current: int)
    requires log.Valid() && Session.Consecutive(log.Log(), first) && current < first + |log.Log()|
    requires log.parts != [] && log.parts[0].base <= resumeFrom && first <= resumeFrom <= current && Replay.CoveredTo(log, resumeFrom)
    ensures Accepts(log, resumeFrom, current)
  {
    hide SegmentManager.Valid, SegmentManager.VisibleLog, SegmentManager.Log, Replay.InRange;
    VisibleConsecutive(log, first);
    RangeStarts(StoredAll(log.VisibleLog()), first, resumeFrom, current);
  }

  lemma {:induction false} RangeToEnd(ms: seq<Message>, lo: int, hi: int)
    requires Below(ms, hi + 1)
    ensures Replay.InRange(ms, lo, hi) == From(ms, lo)
  {
    if ms == [] {
    } else {
      RangeToEnd(ms[1..], lo, hi);
      Manager.FromCons(ms[0], ms[1..], lo);
      assert [ms[0]] + ms[1..] == ms;
    }
  }

  /** A log flushed to its end replays everything from the resume point on. */
  lemma {:induction false} CoveredReplaysAll(log: SegmentManager, first: int, resumeFrom: int, current: int)
    requires log.Valid() && Session.Consecutive(log.Log(), first) && current == first + |log.Log()| - 1
    requires Accepts(log, resumeFrom, current) && Replay.CoveredTo(log, current)
    ensures Visible(log, resumeFrom, current) == From(StoredAll(log.Log()), resumeFrom)
  {
    hide SegmentManager.Valid, SegmentManager.VisibleLog, SegmentManager.Log, Replay.InRange, From;
    Replay.ReplayCompleteIff(log, resumeFrom, current);
    RangeToEnd(StoredAll(log.Log()), resumeFrom, current);
  }

  // ---------- What is sent ----------

  /** The part of a live stream from sequence `first` on that lies at or beyond `end`. */
  function Beyond(live: seq<Message>, first: int, end: int): seq<Message>
  {
    if first >= end then live else if first + |live| <= end then [] else live[end - first..]
  }

  /** The replayed range, and then what the live stream has beyond it: the overlap is sent once. */
  lemma {:induction false} SentIs(resumeFrom: U64, want: seq<Message>, live: seq<Message>, liveFirst: int)
    requires Session.Consecutive(want, resumeFrom) && resumeFrom + |want| < TWO_64 && Session.Consecutive(live, liveFirst)
    ensures Session.Deliver(resumeFrom, want + live) == want + Beyond(live, liveFirst, resumeFrom + |want|)
  {
    hide Session.Deliver, Session.Expect;
    var end := resumeFrom + |want|;
    Session.DeliverAppend(resumeFrom, want, live);
    Session.DeliverAll(resumeFrom, want);
    if liveFirst <= end {
      Session.DeliverOverlap(end, live, liveFirst);
      assert liveFirst == end ==> live[0..] == live;
    } else if live == [] {
      Session.DeliverOverlap(end, live, end);
    } else {
      assert live[|live| - 1].sequence == liveFirst + |live| - 1;
      Session.DeliverFuture(end, live, liveFirst);
    }
  }

  /** The live stream carries the log's own messages wherever the two have the same sequence. */
  ghost predicate SameMessages(ms: seq<Message>, first: int, live: seq<Message>, liveFirst: int)
  {
    forall i :: 0 <= i < |live| && first <= liveFirst + i < first + |ms| ==> Stored(live[i]) == ms[liveFirst + i - first]
  }

  /** A stretch of the log continued by a touching live stream is the rest of the log, as far as both go. */
  lemma {:induction false} ContinuesLog(ms: seq<Message>, first: int, lo: int, want: seq<Message>, live: seq<Message>, liveFirst: int)
    requires first <= lo && lo - first + |want| <= |ms| && want == ms[lo - first..lo - first + |want|]
    requires forall i :: 0 <= i < |want| ==> Stored(want[i]) == want[i]
    requires SameMessages(ms, first, live, liveFirst) && (live == [] || liveFirst <= lo + |want|)
    ensures var sent := StoredAll(want + Beyond(live, liveFirst, lo + |want|));
            forall k :: 0 <= k < |sent| && lo + k < first + |ms| ==> sent[k] == ms[lo - first + k]
  {
    var end, rest := lo + |want|, Beyond(live, liveFirst, lo + |want|);
    var sent := StoredAll(want + rest);
    forall k | 0 <= k < |sent| && lo + k < first + |ms|
      ensures sent[k] == ms[lo - first + k]
    {
      if k < |want| {
        assert (want + rest)[k] == want[k];
      } else {
        assert (want + rest)[k] == rest[k - |want|] == live[lo + k - liveFirst];
      }
    }
  }

  /**
   On a hole-free log, with a hole-free live stream that may start anywhere: what is sent, when it is
   free of gaps, and that it then consists of the log's messages as far as it goes.
   */
  lemma {:induction false} Explain(log: SegmentManager, first: int, resumeFrom: U64, current: int, live: seq<Message>, liveFirst: int)
    requires log.Valid() && Session.Consecutive(log.Log(), first) && current == first + |log.Log()| - 1 && current + 1 < TWO_64
    requires Accepts(log, resumeFrom, current) && Session.Consecutive(live, liveFirst)
    ensures var want := Visible(log, resumeFrom, current);
            var sent := Session.Deliver(resumeFrom, want + live);
            && sent == want + Beyond(live, liveFirst, resumeFrom + |want|)
            && (Session.Consecutive(sent, resumeFrom) <==> Touches(log, resumeFrom, current, live, liveFirst))
            && (Touches(log, resumeFrom, current, live, liveFirst) && SameMessages(StoredAll(log.Log()), first, live, liveFirst) ==>
                  IsLogFrom(StoredAll(sent), StoredAll(log.Log()), first, resumeFrom))
            && (Replay.CoveredTo(log, current) ==> sent == From(StoredAll(log.Log()), resumeFrom) + Beyond(live, liveFirst, current + 1))
  {
    hide SegmentManager.Valid, SegmentManager.VisibleLog, SegmentManager.Log, Replay.InRange, Session.Deliver, Beyond, SameMessages, StoredAll;
    var want := Visible(log, resumeFrom, current);
    ReachesIffCovered(log, first, resumeFrom, current, if liveFirst <= current then liveFirst - 1 else current);
    SentIs(resumeFrom, want, live, liveFirst);
    Session.GapFreeIff(resumeFrom, want, live, liveFirst);
    if Touches(log, resumeFrom, current, live, liveFirst) && SameMessages(StoredAll(log.Log()), first, live, liveFirst) {
      WantIsLog(log, first, resumeFrom, current);
      ContinuesLog(StoredAll(log.Log()), first, resumeFrom, want, live, liveFirst);
    }
    if Replay.CoveredTo(log, current) {
      ReachesIffCovered(log, first, resumeFrom, current, current);
      CoveredReplaysAll(log, first, resumeFrom, current);
    }
  }

  /** The live stream is empty, starts by the resume point, or goes on where the flushed log stops. */
  ghost predicate Touches(log: SegmentManager, resumeFrom: int, current: int, live: seq<Message>, liveFirst: int)
    requires log.Valid()
    reads log, log.Owned
  {
    live == [] || liveFirst <= resumeFrom || (liveFirst <= current + 1 && Replay.CoveredTo(log, liveFirst - 1))
  }

  /** As far as the log goes, these are its messages from `lo` on. */
  ghost predicate IsLogFrom(sent: seq<Message>, ms: seq<Message>, first: int, lo: int)
  {
    first <= lo && forall k :: 0 <= k < |sent| && lo + k < first + |ms| ==> sent[k] == ms[lo - first + k]
  }

  /** The replayed range is a stretch of the log. */
  lemma {:induction false} WantIsLog(log: SegmentManager, first: int, resumeFrom: int, current: int)
    requires log.Valid() && Session.Consecutive(log.Log(), first) && Accepts(log, resumeFrom, current)
    ensures var want, ms := Visible(log, resumeFrom, current), StoredAll(log.Log());
            && first <= resumeFrom && resumeFrom - first + |want| <= |ms|
            && want == ms[resumeFrom - first..resumeFrom - first + |want|]
            && forall i :: 0 <= i < |want| ==> Stored(want[i]) == want[i]
  {
    hide SegmentManager.Valid, SegmentManager.VisibleLog, SegmentManager.Log, Replay.InRange;
    VisibleConsecutive(log, first);
    var vis, whole := log.VisibleLog(), log.Log();
    RangeStretch(StoredAll(vis), first, resumeFrom, current);
    assert StoredAll(vis) == StoredAll(whole)[..|vis|];
  }

  lemma {:induction false} LastOfConsecutive(ms: seq<Message>, first: int)
    requires Session.Consecutive(ms, first) && ms != []
    ensures Manager.LastOf(ms) == first + |ms| - 1
  {
  }

  /** One client on a hole-free log, with a hole-free live stream from any sequence. */
  method Serve(log: SegmentManager, resumeFrom: U64, before: seq<Message>, after: seq<Message>, ghost first: int, ghost liveFirst: int)
    returns (ok: bool, sent: seq<Message>)
    requires log.Valid() && Session.Consecutive(log.Log(), first) && log.lastSeq == first + |log.Log()| - 1
    requires 0 < log.lastSeq < TWO_64 - 1 && Session.Consecutive(before + after, liveFirst)
    ensures ok == Accepts(log, resumeFrom, log.lastSeq) && (!ok ==> sent == [])
    ensures log.parts != [] && log.parts[0].base <= resumeFrom && first <= resumeFrom <= log.lastSeq && Replay.CoveredTo(log, resumeFrom) ==> ok
    ensures ok ==> var want := Visible(log, resumeFrom, log.lastSeq);
                   sent == want + Beyond(before + after, liveFirst, resumeFrom + |want|)
    ensures ok ==> (Session.Consecutive(sent, resumeFrom) <==> Touches(log, resumeFrom, log.lastSeq, before + after, liveFirst))
    ensures ok && Session.Consecutive(sent, resumeFrom) && SameMessages(StoredAll(log.Log()), first, before + after, liveFirst) ==>
              IsLogFrom(StoredAll(sent), StoredAll(log.Log()), first, resumeFrom)
    ensures ok && Replay.CoveredTo(log, log.lastSeq) ==>
              sent == From(StoredAll(log.Log()), resumeFrom) + Beyond(before + after, liveFirst, log.lastSeq + 1)
  {
    hide SegmentManager.Valid, SegmentManager.VisibleLog, SegmentManager.Log, StoredAll, Session.Deliver, Visible, Beyond, Touches, SameMessages;
    hide From, Accepts, IsLogFrom, Replay.CoveredTo, Session.Consecutive;
    var current := log.lastSeq;
    ok, sent := Connect(log, current, resumeFrom, before, after);
    if log.parts != [] && log.parts[0].base <= resumeFrom && first <= resumeFrom <= current && Replay.CoveredTo(log, resumeFrom) {
      CoveredAccepts(log, first, resumeFrom, current);
    }
    if ok {
      Explain(log, first, resumeFrom, current, before + after, liveFirst);
    }
  }

  /**
   From appends to delivery. A log without holes is written by any run, and a client resumes from it
   while a live stream without holes goes on, from any sequence. An accepted client is sent the
   replayed range and then what the live stream has beyond it. That is free of gaps if and only if the
   live stream is empty, starts by the resume point, or goes on where the flushed log stops; and
   then, if both streams carry the same messages, it is every accepted message from the resume point
   on, as far as it goes.
   */
  method RunAndConnect(
    ops: seq<Op>, policy: Policy, indexInterval: int, resumeFrom: U64, before: seq<Message>, after: seq<Message>,
    ghost first: int, ghost liveFirst: int)
    returns (log: SegmentManager, ok: bool, sent: seq<Message>)
    requires Orderly(ops) && policy.maxSegmentBytes > 0
    requires Accepted(ops) != [] && Session.Consecutive(Accepted(ops), first) && first > 0 && first + |Accepted(ops)| < TWO_64
    requires Session.Consecutive(before + after, liveFirst)
    ensures log.Valid() && log.Log() == Accepted(ops) && log.lastSeq == first + |Accepted(ops)| - 1
    ensures ok == Accepts(log, resumeFrom, log.lastSeq) && (!ok ==> sent == [])
    ensures KeptAfter(ops, policy).parts[0].base <= resumeFrom && first <= resumeFrom <= log.lastSeq && Replay.CoveredTo(log, resumeFrom) ==> ok
    ensures ok ==> var want := Visible(log, resumeFrom, log.lastSeq);
                   sent == want + Beyond(before + after, liveFirst, resumeFrom + |want|)
    ensures ok ==> (Session.Consecutive(sent, resumeFrom) <==> Touches(log, resumeFrom, log.lastSeq, before + after, liveFirst))
    ensures ok && Session.Consecutive(sent, resumeFrom) && SameMessages(StoredAll(Accepted(ops)), first, before + after, liveFirst) ==>
              IsLogFrom(StoredAll(sent), StoredAll(Accepted(ops)), first, resumeFrom)
    ensures ok && Replay.CoveredTo(log, log.lastSeq) ==>
              sent == From(StoredAll(Accepted(ops)), resumeFrom) + Beyond(before + after, liveFirst, log.lastSeq + 1)
  {
    hide SegmentManager.Valid, SegmentManager.VisibleLog, StoredAll, Replay.InRange, Session.Deliver, KeptAfter, Tidy, Visible, Beyond, Touches, SameMessages;
    hide From, Accepts, IsLogFrom, Replay.CoveredTo, Orderly, Session.Consecutive, Whole, LastOf, BaseSeen;
    log := RunLog(ops, indexInterval, policy);
    RunLayout(ops, policy);
    log.LastIsCurrent();
    LastOfConsecutive(Accepted(ops), first);
    log.ActiveBase();
    ok, sent := Serve(log, resumeFrom, before, after, first, liveFirst);
  }

  /** Replaying 5, 6, 7 against a live stream 7, 8, 9 sends 7 once. */
  lemma {:induction false} OverlapSentOnce(a: seq<Message>, b: seq<Message>)
    requires |a| == |b| == 3 && Session.Consecutive(a, 5) && Session.Consecutive(b, 7)
    ensures Session.Deliver(5, a + b) == a + b[1..]
  {
    SentIs(5, a, b, 7);
  }
}
