/**
 A client session (internal/gateway/session.go): live messages are buffered while the log
 replay runs, then the replay, the buffer and the live stream are sent through one filter
 that drops anything below the next expected sequence.
 */
module Session {
  import opened Bytes
  import opened Record
  import opened Layout
  import Replay

  const MAX_U64: U64 := TWO_64 - 1

  /** uint64 addition: the successor of the largest sequence is 0. */
  function Succ(s: U64): U64
  {
    if s == MAX_U64 then 0 else s + 1
  }

  /** The messages the filter lets through, starting from expected sequence `e`. */
  function Deliver(e: U64, ms: seq<Message>): seq<Message>
    decreases ms
  {
    if ms == [] then []
    else if ms[0].sequence >= e then [ms[0]] + Deliver(Succ(ms[0].sequence), ms[1..])
    else Deliver(e, ms[1..])
  }

  /** The expected sequence after that. */
  function Expect(e: U64, ms: seq<Message>): U64
    decreases ms
  {
    if ms == [] then e
    else if ms[0].sequence >= e then Expect(Succ(ms[0].sequence), ms[1..])
    else Expect(e, ms[1..])
  }

  lemma {:induction false} DeliverAppend(e: U64, xs: seq<Message>, ys: seq<Message>)
    ensures Deliver(e, xs + ys) == Deliver(e, xs) + Deliver(Expect(e, xs), ys)
    ensures Expect(e, xs + ys) == Expect(Expect(e, xs), ys)
    decreases xs
  {
    if xs == [] {
      assert xs + ys == ys;
    } else {
      assert (xs + ys)[1..] == xs[1..] + ys;
      DeliverAppend(if xs[0].sequence >= e then Succ(xs[0].sequence) else e, xs[1..], ys);
    }
  }

  // ---------- The state machine ----------

  datatype Event = Live(msg: Message) | ReplayDone(msgs: seq<Message>) | ReplayFailed

  datatype Response = Waiting | Accepted | Refused

  datatype State = State(buffer: seq<Message>, replaying: bool, expected: U64, sent: seq<Message>, response: Response)

  function Initial(resumeFrom: U64): State
  {
    State([], true, resumeFrom, [], Waiting)
  }

  function Send(s: State, ms: seq<Message>): State
  {
    s.(sent := s.sent + Deliver(s.expected, ms), expected := Expect(s.expected, ms))
  }

  /** One turn of the select loop. A refused session has returned and ignores everything. */
  function Step(s: State, ev: Event): State
  {
    if s.response == Refused then s
    else
      match ev
      case Live(m) => if s.replaying then s.(buffer := s.buffer + [m]) else Send(s, [m])
      case ReplayFailed => s.(response := Refused)
      case ReplayDone(ms) =>
        Send(Send(s.(response := Accepted), ms), s.buffer).(buffer := [], replaying := false)
  }

  function Run(s: State, evs: seq<Event>): State
    decreases evs
  {
    if evs == [] then s else Run(Step(s, evs[0]), evs[1..])
  }

  class Session {
    var buffer: seq<Message>
    var isReplaying: bool
    var expectedSeq: U64
    var sendCh: seq<Message>
    var response: Response

    constructor (resumeFrom: U64)
      ensures View() == Initial(resumeFrom)
    {
      buffer, isReplaying, expectedSeq, sendCh, response := [], true, resumeFrom, [], Waiting;
    }

    function View(): State
      reads this
    {
      State(buffer, isReplaying, expectedSeq, sendCh, response)
    }

    /** Sends what the filter lets through, in order. */
    method Forward(ms: seq<Message>)
      modifies this`sendCh, this`expectedSeq
      ensures View() == Send(old(View()), ms)
    {
      for i := 0 to |ms|
        invariant View() == Send(old(View()), ms[..i])
      {
        DeliverAppend(old(expectedSeq), ms[..i], [ms[i]]);
        assert ms[..i + 1] == ms[..i] + [ms[i]];
        if ms[i].sequence >= expectedSeq {
          sendCh := sendCh + [ms[i]];
          expectedSeq := Succ(ms[i].sequence);
        }
      }
      assert ms[..|ms|] == ms;
    }

    method OnEvent(ev: Event)
      requires response != Refused
      modifies this
      ensures View() == Step(old(View()), ev)
    {
      match ev
      case Live(m) =>
        if isReplaying {
          buffer := buffer + [m];
        } else {
          Forward([m]);
        }
      case ReplayFailed =>
        response := Refused;
      case ReplayDone(ms) =>
        response := Accepted;
        Forward(ms);
        Forward(buffer);
        buffer, isReplaying := [], false;
    }

    /** The whole loop over the events it receives, in the order it receives them. */
    method RunLoop(evs: seq<Event>)
      modifies this
      ensures View() == Run(old(View()), evs)
    {
      for i := 0 to |evs|
        invariant Run(View(), evs[i..]) == Run(old(View()), evs)
      {
        if response == Refused {
          RefusedStays(View(), evs[i..]);
          return;
        }
        assert evs[i..][1..] == evs[i + 1..];
        OnEvent(evs[i]);
      }
    }
  }

  lemma {:induction false} RefusedStays(s: State, evs: seq<Event>)
    requires s.response == Refused
    ensures Run(s, evs) == s
    decreases evs
  {
    if evs == [] {
    } else {
      RefusedStays(s, evs[1..]);
    }
  }

  // ---------- Whole runs ----------

  function Lives(ms: seq<Message>): seq<Event>
  {
    seq(|ms|, i requires 0 <= i < |ms| => Live(ms[i]))
  }

  lemma {:induction false} RunAppend(s: State, xs: seq<Event>, ys: seq<Event>)
    ensures Run(s, xs + ys) == Run(Run(s, xs), ys)
    decreases xs
  {
    if xs == [] {
      assert xs + ys == ys;
    } else {
      assert (xs + ys)[1..] == xs[1..] + ys;
      RunAppend(Step(s, xs[0]), xs[1..], ys);
    }
  }

  lemma {:induction false} LiveWhileReplaying(s: State, ms: seq<Message>)
    requires s.replaying && s.response == Waiting
    ensures Run(s, Lives(ms)) == s.(buffer := s.buffer + ms)
    decreases ms
  {
    if ms == [] {
      assert s.buffer + ms == s.buffer;
    } else {
      var s' := s.(buffer := s.buffer + [ms[0]]);
      assert Lives(ms)[1..] == Lives(ms[1..]);
      LiveWhileReplaying(s', ms[1..]);
      assert s'.buffer + ms[1..] == s.buffer + ms;
    }
  }

  lemma {:induction false} NothingToSend(s: State)
    ensures Send(s, []) == s
  {
    assert s.sent + [] == s.sent;
  }

  lemma {:induction false} LiveAfterHandover(s: State, ms: seq<Message>)
    requires !s.replaying && s.response == Accepted
    ensures Run(s, Lives(ms)) == Send(s, ms)
    decreases ms
  {
    hide Deliver, Expect;
    if ms == [] {
      NothingToSend(s);
    } else {
      assert Lives(ms)[1..] == Lives(ms[1..]);
      assert [ms[0]] + ms[1..] == ms;
      DeliverAppend(s.expected, [ms[0]], ms[1..]);
      LiveAfterHandover(Send(s, [ms[0]]), ms[1..]);
    }
  }

  /**
   Handover: wherever the replay result falls among the live messages, the client has been sent
   exactly what the filter makes of the replay followed by the whole live stream.
   */
  lemma {:induction false} Handover(resumeFrom: U64, replay: seq<Message>, before: seq<Message>, after: seq<Message>)
    ensures var evs := Lives(before) + [ReplayDone(replay)] + Lives(after);
            && Run(Initial(resumeFrom), evs).sent == Deliver(resumeFrom, replay + (before + after))
            && Run(Initial(resumeFrom), evs).response == Accepted
    ensures Run(Initial(resumeFrom), Lives(before)).sent == [] && Run(Initial(resumeFrom), Lives(before)).response == Waiting
  {
    hide Run, Lives, Deliver, Expect;
    var s0 := Initial(resumeFrom);
    var s1 := s0.(buffer := before);
    var s2 := Step(s1, ReplayDone(replay));
    LiveWhileReplaying(s0, before);
    assert [] + before == before;
    RunOne(s1, ReplayDone(replay));
    RunAppend(s0, Lives(before), [ReplayDone(replay)]);
    RunAppend(s0, Lives(before) + [ReplayDone(replay)], Lives(after));
    LiveAfterHandover(s2, after);
    DeliverAppend(resumeFrom, replay, before + after);
    DeliverAppend(Expect(resumeFrom, replay), before, after);
  }

  lemma {:induction false} RunOne(s: State, ev: Event)
    ensures Run(s, [ev]) == Step(s, ev)
  {
    assert Run(s, [ev]) == Run(Step(s, ev), []);
  }

  /** A session whose replay fails never sends anything, whatever arrives before or after. */
  lemma {:induction false} RefusedSendsNothing(resumeFrom: U64, before: seq<Message>, rest: seq<Event>)
    ensures var s := Run(Initial(resumeFrom), Lives(before) + [ReplayFailed] + rest); s.sent == [] && s.response == Refused
  {
    hide Run, Lives;
    var s0 := Initial(resumeFrom);
    var s1 := s0.(buffer := before);
    LiveWhileReplaying(s0, before);
    assert [] + before == before;
    RunOne(s1, ReplayFailed);
    RunAppend(s0, Lives(before), [ReplayFailed]);
    RunAppend(s0, Lives(before) + [ReplayFailed], rest);
    RefusedStays(Step(s1, ReplayFailed), rest);
  }

  // ---------- Order ----------

  ghost predicate StrictlyIncreasing(ms: seq<Message>)
  {
    forall i :: 0 <= i < |ms| - 1 ==> ms[i].sequence < ms[i + 1].sequence
  }

  /** The largest sequence number is not followed by anything. */
  ghost predicate NoWrap(ms: seq<Message>)
  {
    forall i :: 0 <= i < |ms| - 1 ==> ms[i].sequence != MAX_U64
  }

  lemma {:induction false} DeliverOrdered(e: U64, ms: seq<Message>)
    requires NoWrap(ms)
    ensures StrictlyIncreasing(Deliver(e, ms)) && AtLeast(Deliver(e, ms), e)
    decreases ms
  {
    if ms == [] {
    } else {
      var rest := ms[1..];
      if ms[0].sequence >= e {
        DeliverOrdered(Succ(ms[0].sequence), rest);
        if rest != [] {
          assert ms[0].sequence != MAX_U64;
        }
      } else {
        DeliverOrdered(e, rest);
      }
    }
  }

  /** Any streams: a message is sent exactly if it is not below the resume point and beyond everything before it. */
  lemma {:induction false} DeliverIff(e: U64, ms: seq<Message>, m: Message)
    requires NoWrap(ms)
    ensures m in Deliver(e, ms) <==>
            exists i :: 0 <= i < |ms| && ms[i] == m && m.sequence >= e && forall j :: 0 <= j < i ==> ms[j].sequence < m.sequence
    decreases ms
  {
    if ms == [] {
    } else {
      var rest, e' := ms[1..], if ms[0].sequence >= e then Succ(ms[0].sequence) else e;
      DeliverIff(e', rest, m);
      if m in Deliver(e', rest) {
        var i :| 0 <= i < |rest| && rest[i] == m && m.sequence >= e' && forall j :: 0 <= j < i ==> rest[j].sequence < m.sequence;
        assert ms[i + 1] == m && forall j :: 0 < j < i + 1 ==> ms[j] == rest[j - 1];
      }
      if i :| 0 < i < |ms| && ms[i] == m && m.sequence >= e && forall j :: 0 <= j < i ==> ms[j].sequence < m.sequence {
        assert rest[i - 1] == m && m.sequence >= e';
        assert m in Deliver(e', rest);
      }
    }
  }

  lemma {:induction false} DeliverWraps(e: U64, ms: seq<Message>)
    requires !NoWrap(ms)
    ensures !StrictlyIncreasing(Deliver(e, ms))
    decreases ms
  {
    var rest := ms[1..];
    if ms[0].sequence == MAX_U64 {
      assert Deliver(0, rest)[0] == rest[0];
      var out := Deliver(e, ms);
      assert out[0] == ms[0] && out[1] == rest[0];
    } else {
      var e' := if ms[0].sequence >= e then Succ(ms[0].sequence) else e;
      assert exists i :: 0 <= i < |rest| - 1 && rest[i].sequence == MAX_U64 by {
        var i :| 0 <= i < |ms| - 1 && ms[i].sequence == MAX_U64;
        assert rest[i - 1].sequence == MAX_U64;
      }
      DeliverWraps(e', rest);
      var out, tail := Deliver(e, ms), Deliver(e', rest);
      var i :| 0 <= i < |tail| - 1 && tail[i].sequence >= tail[i + 1].sequence;
      if ms[0].sequence >= e {
        assert out[i + 1] == tail[i] && out[i + 2] == tail[i + 1];
      }
    }
  }

  /**
   A session's output is strictly increasing exactly when no message carrying the largest
   64-bit sequence is followed by another one; then it also never goes below resumeFrom.
   */
  lemma {:induction false} OrderedIffNoWrap(resumeFrom: U64, replay: seq<Message>, before: seq<Message>, after: seq<Message>)
    ensures var out := Run(Initial(resumeFrom), Lives(before) + [ReplayDone(replay)] + Lives(after)).sent;
            && (StrictlyIncreasing(out) <==> NoWrap(replay + (before + after)))
            && (StrictlyIncreasing(out) ==> AtLeast(out, resumeFrom))
  {
    Handover(resumeFrom, replay, before, after);
    var all := replay + (before + after);
    if NoWrap(all) {
      DeliverOrdered(resumeFrom, all);
    } else {
      DeliverWraps(resumeFrom, all);
    }
  }

  /** After the largest sequence the filter expects 0 again, and lets an old message through. */
  lemma {:induction false} WrapShows(last: Message, stale: Message)
    requires last.sequence == MAX_U64 && stale.sequence == 0
    ensures var out := Run(Initial(MAX_U64), Lives([]) + [ReplayDone([last])] + Lives([stale])).sent;
            out == [last, stale] && !StrictlyIncreasing(out)
  {
    Handover(MAX_U64, [last], [], [stale]);
    assert [last] + ([] + [stale]) == [last, stale];
    assert [last, stale][1..] == [stale] && [stale][1..] == [];
    assert Deliver(0, [stale]) == [stale];
  }

  // ---------- No gap, no duplicate ----------

  /** Consecutive sequence numbers starting at `first`. */
  ghost predicate Consecutive(ms: seq<Message>, first: int)
  {
    forall i :: 0 <= i < |ms| ==> ms[i].sequence == first + i
  }

  lemma {:induction false} DeliverAll(e: U64, ms: seq<Message>)
    requires Consecutive(ms, e) && e + |ms| < TWO_64
    ensures Deliver(e, ms) == ms && Expect(e, ms) == e + |ms|
    decreases ms
  {
    if ms == [] {
    } else {
      DeliverAll(e + 1, ms[1..]);
    }
  }

  lemma {:induction false} DeliverOverlap(e: U64, live: seq<Message>, first: int)
    requires Consecutive(live, first) && first <= e
    ensures Deliver(e, live) == if first + |live| <= e then [] else live[e - first..]
    decreases live
  {
    if live == [] {
    } else {
      if first == e {
        if |live| > 1 {
          DeliverOverlap(e + 1, live[1..], first + 1);
          assert live[1..][0..] == live[1..];
        }
        assert live[0..] == [live[0]] + live[1..];
      } else {
        DeliverOverlap(e, live[1..], first + 1);
        if first + |live| > e {
          assert live[1..][e - first - 1..] == live[e - first..];
        }
      }
    }
  }

  /**
   If the replay is contiguous from resumeFrom to c and the live stream is contiguous and
   starts no later than c + 1, the client receives resumeFrom, resumeFrom + 1, ... up to the
   newest message of either, with no gap and no duplicate, under every interleaving.
   */
  lemma {:induction false} NoGapNoDuplicate(resumeFrom: U64, replay: seq<Message>, before: seq<Message>, after: seq<Message>, first: int)
    requires Consecutive(replay, resumeFrom) && resumeFrom + |replay| < TWO_64
    requires Consecutive(before + after, first) && first <= resumeFrom + |replay|
    ensures var out := Run(Initial(resumeFrom), Lives(before) + [ReplayDone(replay)] + Lives(after)).sent;
            var end, liveEnd := resumeFrom + |replay|, first + |before + after|;
            && Consecutive(out, resumeFrom)
            && |out| == (if liveEnd > end then liveEnd else end) - resumeFrom
            && replay <= out
            && out[|replay|..] == if liveEnd <= end then [] else (before + after)[end - first..]
  {
    hide Run, Lives, Deliver, Expect, Initial;
    Handover(resumeFrom, replay, before, after);
    var live := before + after;
    DeliverAppend(resumeFrom, replay, live);
    DeliverAll(resumeFrom, replay);
    DeliverOverlap(resumeFrom + |replay|, live, first);
  }

  lemma {:induction false} DeliverFuture(e: U64, live: seq<Message>, first: int)
    requires Consecutive(live, first) && first >= e && first + |live| <= TWO_64
    ensures Deliver(e, live) == live
    decreases live
  {
    if live == [] {
    } else if |live| == 1 {
      assert live[1..] == [];
    } else {
      DeliverFuture(first + 1, live[1..], first + 1);
    }
  }

  /** Contiguous replay and live stream are sent without a gap if and only if they touch or overlap. */
  lemma {:induction false} GapFreeIff(resumeFrom: U64, replay: seq<Message>, live: seq<Message>, first: int)
    requires Consecutive(replay, resumeFrom) && resumeFrom + |replay| < TWO_64 && Consecutive(live, first)
    ensures Consecutive(Deliver(resumeFrom, replay + live), resumeFrom) <==> live == [] || first <= resumeFrom + |replay|
  {
    hide Deliver, Expect;
    var end := resumeFrom + |replay|;
    DeliverAppend(resumeFrom, replay, live);
    DeliverAll(resumeFrom, replay);
    if live == [] {
      DeliverOverlap(end, live, end);
    } else if first <= end {
      DeliverOverlap(end, live, first);
    } else {
      assert live[|live| - 1].sequence == first + |live| - 1;
      DeliverFuture(end, live, first);
      assert (replay + live)[|replay|] == live[0];
    }
  }

  function Clamp(x: int, lo: int, hi: int): (r: int)
    requires lo <= hi
    ensures lo <= r <= hi
  {
    if x < lo then lo else if x > hi then hi else x
  }

  /** The stretch of a consecutive log between two sequence numbers. */
  function Slice(log: seq<Message>, first: int, lo: int, hi: int): seq<Message>
  {
    var a := Clamp(lo - first, 0, |log|);
    log[a..Clamp(hi + 1 - first, a, |log|)]
  }

  lemma {:induction false} SliceBefore(log: seq<Message>, first: int, lo: int, hi: int)
    requires log != [] && first < lo
    ensures Slice(log, first, lo, hi) == Slice(log[1..], first + 1, lo, hi)
  {
    var a := Clamp(lo - first, 0, |log|);
    var b := Clamp(hi + 1 - first, a, |log|);
    assert Clamp(lo - first - 1, 0, |log| - 1) == a - 1 && Clamp(hi - first, a - 1, |log| - 1) == b - 1;
    ShiftedSlice(log, a, b);
  }

  lemma {:induction false} ShiftedSlice(log: seq<Message>, a: nat, b: nat)
    requires 0 < a <= b <= |log|
    ensures log[a..b] == log[1..][a - 1..b - 1]
  {
    var x, y := log[a..b], log[1..][a - 1..b - 1];
    forall i | 0 <= i < b - a
      ensures x[i] == y[i]
    {
      assert x[i] == log[a + i] == log[1..][a - 1 + i];
    }
  }

  lemma {:induction false} SliceWithin(log: seq<Message>, first: int, lo: int, hi: int)
    requires log != [] && lo <= first <= hi
    ensures Slice(log, first, lo, hi) == [log[0]] + Slice(log[1..], first + 1, lo, hi)
  {
    var b := Clamp(hi - first, 0, |log| - 1);
    assert log[..b + 1] == [log[0]] + log[1..][..b];
  }

  lemma {:induction false} SliceBeyond(log: seq<Message>, first: int, lo: int, hi: int)
    requires lo <= first && hi < first
    ensures Slice(log, first, lo, hi) == []
  {
  }

  lemma {:induction false} RangeIsSlice(log: seq<Message>, first: int, lo: int, hi: int)
    requires Consecutive(log, first)
    ensures Replay.InRange(log, lo, hi) == Slice(log, first, lo, hi)
    decreases log
  {
    if log == [] {
    } else {
      assert log[0].sequence == first && Consecutive(log[1..], first + 1);
      hide Consecutive, Slice;
      RangeIsSlice(log[1..], first + 1, lo, hi);
      if first < lo {
        SliceBefore(log, first, lo, hi);
      } else if first <= hi {
        SliceWithin(log, first, lo, hi);
      } else {
        SliceBeyond(log, first, lo, hi);
        SliceBeyond(log[1..], first + 1, lo, hi);
      }
    }
  }

  /**
   The replay service feeds this: on a log with consecutive sequences, a range that starts at
   resumeFrom is contiguous up to `current` or to the end of the log.
   */
  lemma {:induction false} ReplayIsConsecutive(log: seq<Message>, first: int, resumeFrom: int, current: int)
    requires Consecutive(log, first)
    ensures var want := Replay.InRange(log, resumeFrom, current);
            want != [] && want[0].sequence == resumeFrom ==>
              && Consecutive(want, resumeFrom)
              && resumeFrom + |want| == if current < first + |log| then current + 1 else first + |log|
  {
    RangeIsSlice(log, first, resumeFrom, current);
  }
}
