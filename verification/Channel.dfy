/**
 The backpressure channel (internal/backpressure/channel.go) in its drop-oldest form: senders
 fill a ring, a forwarder moves events one at a time into the consumer's channel, and Close
 stops the forwarder and empties the ring. A send is four atomic steps: it checks for closure,
 reads the ring's drop counter, pushes under the ring's mutex, and reads the counter again to add
 the difference to the channel's own. Other senders may step in between.
 */
module Channel {
  import opened Bits
  import opened Collections
  import opened Ring

  /** The places in `whole` that the elements of `part` come from, in order. */
  ghost predicate Picks<T>(ids: seq<nat>, part: seq<T>, whole: seq<T>)
  {
    && |ids| == |part|
    && (forall i :: 0 <= i < |ids| ==> ids[i] < |whole| && part[i] == whole[ids[i]])
    && (forall i, j :: 0 <= i < j < |ids| ==> ids[i] < ids[j])
  }

  /** `part` is `whole` with some elements left out. */
  ghost predicate InOrderPart<T>(part: seq<T>, whole: seq<T>)
  {
    exists ids :: Picks(ids, part, whole)
  }

  lemma {:induction false} PicksAppend<T>(ids: seq<nat>, part: seq<T>, whole: seq<T>, x: T)
    requires Picks(ids, part, whole)
    ensures Picks(ids + [|whole|], part + [x], whole + [x])
    ensures Picks(ids, part, whole + [x])
  {
  }

  lemma {:induction false} PicksWithout<T>(ids: seq<nat>, part: seq<T>, whole: seq<T>, p: nat)
    requires Picks(ids, part, whole) && p < |part|
    ensures Picks(ids[..p] + ids[p + 1..], part[..p] + part[p + 1..], whole)
  {
    var ids', part' := ids[..p] + ids[p + 1..], part[..p] + part[p + 1..];
    assert forall i :: 0 <= i < |ids'| ==> ids'[i] == ids[if i < p then i else i + 1];
    assert forall i :: 0 <= i < |part'| ==> part'[i] == part[if i < p then i else i + 1];
  }

  /** Pushing behind the events `pre`: append, and drop the ring's oldest if it was full. */
  lemma {:induction false} PushPicks<T>(ids: seq<nat>, pre: seq<T>, ring: seq<T>, accepted: seq<T>, ev: T, cap: nat) returns (ids': seq<nat>)
    requires Picks(ids, pre + ring, accepted) && |ring| <= cap && cap > 0
    ensures Picks(ids', pre + Newest(ring + [ev], cap), accepted + [ev])
    ensures |pre + Newest(ring + [ev], cap)| == |pre + ring| + if |ring| == cap then 0 else 1
  {
    var all, p := pre + ring + [ev], |pre|;
    PicksAppend(ids, pre + ring, accepted, ev);
    ids' := ids + [|accepted|];
    if |ring| < cap {
      assert pre + Newest(ring + [ev], cap) == all;
    } else {
      PicksWithout(ids', all, accepted + [ev], p);
      ids' := ids'[..p] + ids'[p + 1..];
      assert pre + Newest(ring + [ev], cap) == all[..p] + all[p + 1..];
    }
  }

  /** Dropping the first event behind `pre`. */
  lemma {:induction false} DropPicks<T>(ids: seq<nat>, pre: seq<T>, rest: seq<T>, accepted: seq<T>) returns (ids': seq<nat>)
    requires Picks(ids, pre + rest, accepted) && rest != []
    ensures Picks(ids', pre + rest[1..], accepted)
  {
    var p := |pre|;
    PicksWithout(ids, pre + rest, accepted, p);
    ids' := ids[..p] + ids[p + 1..];
    assert pre + rest[1..] == (pre + rest)[..p] + (pre + rest)[p + 1..];
  }

  function Held<T>(hand: Slot<T>): seq<T>
  {
    if hand.Full? then [hand.value] else []
  }

  // ---------- The channel as a value ----------

  /** Where a sender is in its call. */
  datatype Phase<T> = Idle | Checked(ev: T) | Loaded(ev: T, before: nat) | Pushed(ok: bool, before: nat)

  /** What happened: accepted and received events, refused ones, and where the others went. */
  datatype History<T> = History(accepted: seq<T>, received: seq<T>, refused: nat, lost: nat, drained: nat, overlaps: nat)

  datatype State<T> = State(
    cap: nat, room: nat, ring: seq<T>, ringDropped: nat, queue: seq<T>, hand: Slot<T>,
    closed: bool, stopped: bool, drainDone: bool, totalDropped: nat, senders: seq<Phase<T>>, past: History<T>)

  function Start<T>(cap: nat, room: nat, n: nat): State<T>
  {
    State(cap, room, [], 0, [], Empty, false, false, false, 0, seq(n, _ => Idle), History([], [], 0, 0, 0, 0))
  }

  /** Between its two reads of the drop counter. */
  predicate Open<T>(ph: Phase<T>)
  {
    ph.Loaded? || ph.Pushed?
  }

  function OpenCount<T>(senders: seq<Phase<T>>): nat
  {
    if senders == [] then 0 else OpenCount(senders[..|senders| - 1]) + if Open(senders[|senders| - 1]) then 1 else 0
  }

  function OnCheck<T>(s: State<T>, p: nat, ev: T): State<T>
  {
    if p < |s.senders| && s.senders[p].Idle? && !s.closed then s.(senders := s.senders[p := Checked(ev)]) else s
  }

  function OnBefore<T>(s: State<T>, p: nat): State<T>
  {
    if p < |s.senders| && s.senders[p].Checked? then s.(senders := s.senders[p := Loaded(s.senders[p].ev, s.ringDropped)]) else s
  }

  /** The push. A drop is seen by every other sender that is between its two reads. */
  function OnPush<T>(s: State<T>, p: nat, expired: bool): State<T>
  {
    if p < |s.senders| && s.senders[p].Loaded? then
      var ph, drops := s.senders[p], if expired || |s.ring| == s.cap then 1 else 0;
      var others := if OpenCount(s.senders) > 0 then OpenCount(s.senders) - 1 else 0;
      s.(ring := if expired then s.ring else Newest(s.ring + [ph.ev], s.cap),
         ringDropped := s.ringDropped + drops,
         senders := s.senders[p := Pushed(!expired, ph.before)],
         past := s.past.(accepted := s.past.accepted + if expired then [] else [ph.ev],
                         refused := s.past.refused + if expired then 1 else 0,
                         overlaps := s.past.overlaps + if drops == 1 then others else 0))
    else s
  }

  function OnAfter<T>(s: State<T>, p: nat): State<T>
  {
    if p < |s.senders| && s.senders[p].Pushed? then
      var before := s.senders[p].before;
      s.(senders := s.senders[p := Idle],
         totalDropped := s.totalDropped + if s.ringDropped > before then s.ringDropped - before else 0)
    else s
  }

  function OnTake<T>(s: State<T>): State<T>
  {
    if !s.stopped && s.hand.Empty? && s.ring != [] then s.(hand := Full(s.ring[0]), ring := s.ring[1..]) else s
  }

  function OnPass<T>(s: State<T>): State<T>
  {
    if !s.stopped && s.hand.Full? && |s.queue| < s.room then s.(hand := Empty, queue := s.queue + [s.hand.value]) else s
  }

  function OnConsume<T>(s: State<T>): State<T>
  {
    if s.queue == [] then s
    else s.(queue := s.queue[1..], past := s.past.(received := s.past.received + [s.queue[0]]))
  }

  function OnClose<T>(s: State<T>): State<T>
  {
    s.(closed := true)
  }

  /** The forwarder returns: with an event in its hand, which vanishes, or because the ring is empty. */
  function OnStop<T>(s: State<T>): State<T>
  {
    if s.closed && !s.stopped && (s.hand.Full? || s.ring == []) then
      s.(stopped := true, hand := Empty, past := s.past.(lost := s.past.lost + |Held(s.hand)|))
    else s
  }

  /** One round of the closing drain, until it finds the ring empty. */
  function OnDrain<T>(s: State<T>): State<T>
  {
    if !s.stopped || s.drainDone then s
    else if s.ring == [] then s.(drainDone := true)
    else if |s.queue| < s.room then s.(ring := s.ring[1..], queue := s.queue + [s.ring[0]])
    else s.(ring := s.ring[1..], totalDropped := s.totalDropped + 1, past := s.past.(drained := s.past.drained + 1))
  }

  datatype Action<T> =
    | Check(p: nat, ev: T) | Before(p: nat) | Store(p: nat, expired: bool) | After(p: nat)
    | Take | Pass | Consume | Close | Stop | Drain

  /** One atomic step; one that is not possible changes nothing. */
  function Step<T>(s: State<T>, a: Action<T>): State<T>
  {
    match a
    case Check(p, ev) => OnCheck(s, p, ev)
    case Before(p) => OnBefore(s, p)
    case Store(p, expired) => OnPush(s, p, expired)
    case After(p) => OnAfter(s, p)
    case Take => OnTake(s)
    case Pass => OnPass(s)
    case Consume => OnConsume(s)
    case Close => OnClose(s)
    case Stop => OnStop(s)
    case Drain => OnDrain(s)
  }

  function Run<T>(s: State<T>, actions: seq<Action<T>>): State<T>
    decreases |actions|
  {
    if actions == [] then s else Run(Step(s, actions[0]), actions[1..])
  }

  // ---------- What every step keeps ----------

  /** Everything received or still on its way, oldest first. */
  function Flow<T>(s: State<T>): seq<T>
  {
    s.past.received + s.queue + Held(s.hand) + s.ring
  }

  /** The events really dropped: overwritten, refused for their age, or drained without room. */
  function TrueDrops<T>(s: State<T>): nat
  {
    s.ringDropped + s.past.drained
  }

  /** What the open senders have yet to add. */
  function Pending<T>(senders: seq<Phase<T>>, d: int): int
  {
    if senders == [] then 0
    else
      var last := senders[|senders| - 1];
      Pending(senders[..|senders| - 1], d) + if Open(last) then d - last.before else 0
  }

  ghost predicate Shaped<T>(s: State<T>)
  {
    && |s.ring| <= s.cap && s.cap > 0
    && (forall p :: 0 <= p < |s.senders| && Open(s.senders[p]) ==> s.senders[p].before <= s.ringDropped)
    && s.past.lost <= 1 && (s.past.lost == 1 ==> s.stopped) && (s.stopped ==> s.closed && s.hand.Empty?)
  }

  /** Every event is somewhere, in order. */
  ghost predicate Accounted<T>(s: State<T>)
  {
    && InOrderPart(Flow(s), s.past.accepted)
    && |s.past.accepted| + s.past.refused == |Flow(s)| + TrueDrops(s) + s.past.lost
  }

  /** The channel's own counter: true drops, plus each drop once more for every other sender that saw it. */
  ghost predicate CountedDrops<T>(s: State<T>)
  {
    s.totalDropped + Pending(s.senders, s.ringDropped) == TrueDrops(s) + s.past.overlaps
  }

  ghost predicate Kept<T>(s: State<T>)
  {
    Shaped(s) && Accounted(s) && CountedDrops(s)
  }

  lemma {:induction false} PendingPut<T>(senders: seq<Phase<T>>, p: nat, ph: Phase<T>, d: int)
    requires p < |senders|
    ensures Pending(senders[p := ph], d) == Pending(senders, d) - Share(senders[p], d) + Share(ph, d)
  {
    var n := |senders| - 1;
    if p == n {
      assert senders[p := ph][..n] == senders[..n];
    } else {
      PendingPut(senders[..n], p, ph, d);
      assert senders[p := ph][..n] == senders[..n][p := ph];
    }
  }

  function Share<T>(ph: Phase<T>, d: int): int
  {
    if Open(ph) then d - ph.before else 0
  }

  lemma {:induction false} PendingMore<T>(senders: seq<Phase<T>>, d: int)
    ensures Pending(senders, d + 1) == Pending(senders, d) + OpenCount(senders)
  {
    if senders == [] {
    } else {
      PendingMore(senders[..|senders| - 1], d);
    }
  }

  lemma {:induction false} OpenCountAt<T>(senders: seq<Phase<T>>, p: nat)
    requires p < |senders| && Open(senders[p])
    ensures OpenCount(senders) > 0
  {
    if p == |senders| - 1 {
    } else {
      OpenCountAt(senders[..|senders| - 1], p);
    }
  }

  lemma {:induction false} PendingNone<T>(senders: seq<Phase<T>>, d: int)
    requires forall p :: 0 <= p < |senders| ==> !Open(senders[p])
    ensures Pending(senders, d) == 0 && OpenCount(senders) == 0
  {
    if senders == [] {
    } else {
      PendingNone(senders[..|senders| - 1], d);
    }
  }

  lemma {:induction false} CheckKeeps<T>(s: State<T>, p: nat, ev: T)
    requires Kept(s)
    ensures Kept(OnCheck(s, p, ev))
  {
    hide Pending, InOrderPart;
    if p < |s.senders| && s.senders[p].Idle? {
      PendingPut(s.senders, p, Checked(ev), s.ringDropped);
    }
  }

  lemma {:induction false} BeforeKeeps<T>(s: State<T>, p: nat)
    requires Kept(s)
    ensures Kept(OnBefore(s, p))
  {
    hide Pending, InOrderPart;
    if p < |s.senders| && s.senders[p].Checked? {
      PendingPut(s.senders, p, Loaded(s.senders[p].ev, s.ringDropped), s.ringDropped);
    }
  }

  lemma {:induction false} AfterKeeps<T>(s: State<T>, p: nat)
    requires Kept(s)
    ensures Kept(OnAfter(s, p))
  {
    hide Pending, InOrderPart;
    if p < |s.senders| && s.senders[p].Pushed? {
      PendingPut(s.senders, p, Idle, s.ringDropped);
    }
  }

  lemma {:induction false} PushCounts<T>(s: State<T>, p: nat, expired: bool)
    requires Shaped(s) && CountedDrops(s)
    ensures Shaped(OnPush(s, p, expired)) && CountedDrops(OnPush(s, p, expired))
  {
    hide Pending, OpenCount;
    if p < |s.senders| && s.senders[p].Loaded? {
      var d, ph := s.ringDropped, Pushed(!expired, s.senders[p].before);
      OpenCountAt(s.senders, p);
      PendingMore(s.senders, d);
      PendingPut(s.senders, p, ph, d);
      PendingPut(s.senders, p, ph, d + 1);
    }
  }

  lemma {:induction false} PushAccounts<T>(s: State<T>, p: nat, expired: bool)
    requires Shaped(s) && Accounted(s)
    ensures Accounted(OnPush(s, p, expired))
  {
    hide Picks, Newest, OpenCount;
    if p < |s.senders| && s.senders[p].Loaded? && expired {
      assert s.past.accepted + [] == s.past.accepted;
    } else if p < |s.senders| && s.senders[p].Loaded? {
      var ids :| Picks(ids, Flow(s), s.past.accepted);
      var pre, ev := s.past.received + s.queue + Held(s.hand), s.senders[p].ev;
      ids := PushPicks(ids, pre, s.ring, s.past.accepted, ev, s.cap);
      assert Flow(OnPush(s, p, expired)) == pre + Newest(s.ring + [ev], s.cap);
    }
  }

  lemma {:induction false} TakeKeeps<T>(s: State<T>)
    requires Kept(s)
    ensures Kept(OnTake(s)) && Flow(OnTake(s)) == Flow(s)
  {
    hide Pending, InOrderPart;
    TakeFlow(s.past.received, s.queue, s.hand, s.ring);
  }

  lemma {:induction false} PassKeeps<T>(s: State<T>)
    requires Kept(s)
    ensures Kept(OnPass(s)) && Flow(OnPass(s)) == Flow(s)
  {
    hide Pending, InOrderPart;
    PassFlow(s.past.received, s.queue, s.hand, s.ring);
  }

  lemma {:induction false} ConsumeKeeps<T>(s: State<T>)
    requires Kept(s)
    ensures Kept(OnConsume(s)) && Flow(OnConsume(s)) == Flow(s)
  {
    hide Pending, InOrderPart;
    ConsumeFlow(s.past.received, s.queue, s.hand, s.ring);
  }

  lemma {:induction false} TakeFlow<T>(received: seq<T>, queue: seq<T>, hand: Slot<T>, ring: seq<T>)
    ensures hand.Empty? && ring != [] ==>
              received + queue + Held(Full(ring[0])) + ring[1..] == received + queue + Held(hand) + ring
  {
  }

  lemma {:induction false} PassFlow<T>(received: seq<T>, queue: seq<T>, hand: Slot<T>, ring: seq<T>)
    ensures hand.Full? ==> received + (queue + [hand.value]) + Held(Empty) + ring == received + queue + Held(hand) + ring
  {
  }

  lemma {:induction false} ConsumeFlow<T>(received: seq<T>, queue: seq<T>, hand: Slot<T>, ring: seq<T>)
    ensures queue != [] ==> received + [queue[0]] + queue[1..] + Held(hand) + ring == received + queue + Held(hand) + ring
  {
    if queue == [] {
    } else {
      assert received + [queue[0]] + queue[1..] == received + queue;
    }
  }

  lemma {:induction false} StopKeeps<T>(s: State<T>)
    requires Kept(s)
    ensures Kept(OnStop(s))
  {
    hide Pending, Picks;
    var ids :| Picks(ids, Flow(s), s.past.accepted);
    if s.hand.Full? {
      var pre, rest := s.past.received + s.queue, Held(s.hand) + s.ring;
      assert Flow(s) == pre + rest && rest[1..] == s.ring;
      ids := DropPicks(ids, pre, rest, s.past.accepted);
      assert pre + s.ring == pre + Held<T>(Empty) + s.ring;
    }
  }

  lemma {:induction false} DrainKeeps<T>(s: State<T>)
    requires Kept(s)
    ensures Kept(OnDrain(s))
  {
    hide Pending, Picks;
    if s.stopped && !s.drainDone && s.ring != [] {
      if |s.queue| < s.room {
        assert Flow(OnDrain(s)) == Flow(s);
      } else {
        var ids :| Picks(ids, Flow(s), s.past.accepted);
        ids := DropPicks(ids, s.past.received + s.queue + Held(s.hand), s.ring, s.past.accepted);
      }
    }
  }

  lemma {:induction false} StepKeeps<T>(s: State<T>, a: Action<T>)
    requires Kept(s)
    ensures Kept(Step(s, a))
  {
    match a
    case Check(p, ev) => CheckKeeps(s, p, ev);
    case Before(p) => BeforeKeeps(s, p);
    case After(p) => AfterKeeps(s, p);
    case Store(p, expired) =>
      PushCounts(s, p, expired);
      PushAccounts(s, p, expired);
    case Stop => StopKeeps(s);
    case Drain => DrainKeeps(s);
    case Take => TakeKeeps(s);
    case Pass => PassKeeps(s);
    case Consume => ConsumeKeeps(s);
    case Close =>
  }

  // ---------- Every schedule ----------

  lemma {:induction false} RunKeeps<T>(s: State<T>, actions: seq<Action<T>>)
    requires Kept(s)
    ensures Kept(Run(s, actions))
    decreases |actions|
  {
    hide Kept, Step;
    if actions == [] {
    } else {
      StepKeeps(s, actions[0]);
      RunKeeps(Step(s, actions[0]), actions[1..]);
    }
  }

  lemma {:induction false} StartKeeps<T>(cap: nat, room: nat, n: nat)
    requires cap > 0
    ensures Kept(Start<T>(cap, room, n))
  {
    var s := Start<T>(cap, room, n);
    PendingNone(s.senders, 0);
    assert Flow(s) == [];
    assert Picks([], Flow(s), s.past.accepted);
  }

  lemma {:induction false} LostOnlyAtStop<T>(s: State<T>, actions: seq<Action<T>>)
    requires Stop !in actions
    ensures Run(s, actions).past.lost == s.past.lost
    decreases |actions|
  {
    if actions == [] {
    } else {
      LostOnlyAtStop(Step(s, actions[0]), actions[1..]);
    }
  }

  /** The step drops an event while another sender is between its two reads. */
  predicate SeenTwice<T>(s: State<T>, a: Action<T>)
  {
    && a.Store? && a.p < |s.senders| && s.senders[a.p].Loaded?
    && (a.expired || |s.ring| == s.cap) && OpenCount(s.senders) > 1
  }

  predicate NeverSeenTwice<T>(s: State<T>, actions: seq<Action<T>>)
    decreases |actions|
  {
    actions == [] || (!SeenTwice(s, actions[0]) && NeverSeenTwice(Step(s, actions[0]), actions[1..]))
  }

  lemma {:induction false} OverlapsIff<T>(s: State<T>, actions: seq<Action<T>>)
    ensures Run(s, actions).past.overlaps >= s.past.overlaps
    ensures Run(s, actions).past.overlaps == s.past.overlaps <==> NeverSeenTwice(s, actions)
    decreases |actions|
  {
    if actions == [] {
    } else {
      OneStepOverlaps(s, actions[0]);
      OverlapsIff(Step(s, actions[0]), actions[1..]);
    }
  }

  lemma {:induction false} OneStepOverlaps<T>(s: State<T>, a: Action<T>)
    ensures Step(s, a).past.overlaps >= s.past.overlaps
    ensures Step(s, a).past.overlaps == s.past.overlaps <==> !SeenTwice(s, a)
  {
  }

  /** No sender is between its two reads. */
  ghost predicate Quiet<T>(s: State<T>)
  {
    forall p :: 0 <= p < |s.senders| ==> !Open(s.senders[p])
  }

  /**
   Delivery under every schedule of any number of senders: the consumer sees an in-order part of
   what was accepted, and every event is received, queued, in hand, in the ring or dropped, but for
   at most one, lost with the forwarder. The drop counter is never too small, and it is exact if and
   only if no event was dropped while another sender was between its two reads.
   */
  lemma {:induction false} AnySchedule<T>(cap: nat, room: nat, n: nat, actions: seq<Action<T>>)
    requires cap > 0
    ensures var s := Run(Start(cap, room, n), actions);
            && InOrderPart(s.past.received, s.past.accepted)
            && |s.past.accepted| + s.past.refused
               == |s.past.received| + |s.queue| + |Held(s.hand)| + |s.ring| + TrueDrops(s) + s.past.lost
            && s.past.lost <= 1 && (Stop !in actions ==> s.past.lost == 0)
            && (Quiet(s) ==> s.totalDropped == TrueDrops(s) + s.past.overlaps)
            && (Quiet(s) ==> (s.totalDropped == TrueDrops(s) <==> NeverSeenTwice(Start(cap, room, n), actions)))
  {
    hide Picks, Pending, Run, NeverSeenTwice;
    var start := Start<T>(cap, room, n);
    StartKeeps<T>(cap, room, n);
    RunKeeps(start, actions);
    OverlapsIff(start, actions);
    var s := Run(start, actions);
    var ids :| Picks(ids, Flow(s), s.past.accepted);
    assert Flow(s)[..|s.past.received|] == s.past.received;
    PicksPrefix(ids, s.past.received, Flow(s), s.past.accepted);
    if Stop !in actions {
      LostOnlyAtStop(start, actions);
    }
    if Quiet(s) {
      PendingNone(s.senders, s.ringDropped);
    }
  }

  // ---------- When nothing is lost, and what gets through ----------

  /** The step loses an accepted event: a push onto a full ring, a stop with an event in hand, a drain onto a full queue. */
  predicate Loses<T>(s: State<T>, a: Action<T>)
  {
    match a
    case Store(p, expired) => p < |s.senders| && s.senders[p].Loaded? && !expired && |s.ring| == s.cap
    case Stop => s.closed && !s.stopped && s.hand.Full?
    case Drain => s.stopped && !s.drainDone && s.ring != [] && |s.queue| >= s.room
    case _ => false
  }

  predicate NeverLoses<T>(s: State<T>, actions: seq<Action<T>>)
    decreases |actions|
  {
    actions == [] || (!Loses(s, actions[0]) && NeverLoses(Step(s, actions[0]), actions[1..]))
  }

  lemma {:induction false} OneStepLoses<T>(s: State<T>, a: Action<T>)
    requires Shaped(s)
    ensures var s' := Step(s, a);
            |s'.past.accepted| - |Flow(s')| == |s.past.accepted| - |Flow(s)| + if Loses(s, a) then 1 else 0
  {
    hide OpenCount;
  }

  lemma {:induction false} LossesAdd<T>(s: State<T>, actions: seq<Action<T>>)
    requires Kept(s)
    ensures var s', lost := Run(s, actions), |s.past.accepted| - |Flow(s)|;
            && |s'.past.accepted| - |Flow(s')| >= lost
            && (|s'.past.accepted| - |Flow(s')| == lost <==> NeverLoses(s, actions))
    decreases |actions|
  {
    hide Step, Flow, Accounted, CountedDrops, Loses;
    if actions == [] {
    } else {
      OneStepLoses(s, actions[0]);
      StepKeeps(s, actions[0]);
      LossesAdd(Step(s, actions[0]), actions[1..]);
    }
  }

  lemma {:induction false} PicksAt<T>(ids: seq<nat>, part: seq<T>, whole: seq<T>, i: nat)
    requires Picks(ids, part, whole) && i < |ids|
    ensures ids[i] >= i
  {
    if i == 0 {
    } else {
      PicksAt(ids, part, whole, i - 1);
    }
  }

  lemma {:induction false} PicksBack<T>(ids: seq<nat>, part: seq<T>, whole: seq<T>, i: nat)
    requires Picks(ids, part, whole) && i < |ids|
    ensures |whole| - ids[i] >= |ids| - i
    decreases |ids| - i
  {
    if i == |ids| - 1 {
    } else {
      PicksBack(ids, part, whole, i + 1);
    }
  }

  lemma {:induction false} PicksWhole<T>(ids: seq<nat>, part: seq<T>, whole: seq<T>)
    requires Picks(ids, part, whole) && |part| == |whole|
    ensures part == whole
  {
    forall i | 0 <= i < |part|
      ensures part[i] == whole[i]
    {
      PicksAt(ids, part, whole, i);
      PicksBack(ids, part, whole, i);
    }
  }

  /** Under every schedule: what was accepted is all received or on its way exactly if no step lost an event. */
  lemma {:induction false} LosslessIff<T>(cap: nat, room: nat, n: nat, actions: seq<Action<T>>)
    requires cap > 0
    ensures var s := Run(Start(cap, room, n), actions);
            s.past.received + s.queue + Held(s.hand) + s.ring == s.past.accepted <==> NeverLoses(Start(cap, room, n), actions)
  {
    hide Picks, Run, NeverLoses, CountedDrops, Shaped;
    var start := Start<T>(cap, room, n);
    StartKeeps<T>(cap, room, n);
    RunKeeps(start, actions);
    LossesAdd(start, actions);
    var s := Run(start, actions);
    var ids :| Picks(ids, Flow(s), s.past.accepted);
    if |Flow(s)| == |s.past.accepted| {
      PicksWhole(ids, Flow(s), s.past.accepted);
    }
  }

  function Repeat<T>(a: seq<Action<T>>, k: nat): seq<Action<T>>
  {
    if k == 0 then [] else a + Repeat(a, k - 1)
  }

  /** The forwarder moves the oldest k events of the ring to the end of the queue, as far as there is room. */
  lemma {:induction false} Forwards<T>(s: State<T>, k: nat)
    requires !s.stopped && s.hand.Empty? && k <= |s.ring| && |s.queue| + k <= s.room
    ensures Run(s, Repeat([Take, Pass], k)) == s.(ring := s.ring[k..], queue := s.queue + s.ring[..k])
    decreases k
  {
    if k == 0 {
    } else {
      var s1 := s.(hand := Full(s.ring[0]), ring := s.ring[1..]);
      var s2 := s1.(hand := Empty, queue := s.queue + [s.ring[0]]);
      assert Step(s, Take) == s1 && Step(s1, Pass) == s2;
      Forwards(s2, k - 1);
      assert s.queue + [s.ring[0]] + s.ring[1..][..k - 1] == s.queue + s.ring[..k];
      hide Step;
      var rest: seq<Action<T>> := Repeat([Take, Pass], k - 1);
      RunStep(s, Take, [Pass] + rest);
      RunStep(s1, Pass, rest);
      assert [Take, Pass] + rest == [Take] + ([Pass] + rest);
    }
  }

  /** How many of the ring's events the queue has room for. */
  function Fits<T>(s: State<T>): (k: nat)
    ensures k <= |s.ring|
  {
    if s.room <= |s.queue| then 0 else if |s.ring| < s.room - |s.queue| then |s.ring| else s.room - |s.queue|
  }

  /** The state when the closing drain has ended. */
  function Drained<T>(s: State<T>): State<T>
  {
    var dropped := |s.ring| - Fits(s);
    s.(ring := [], queue := s.queue + s.ring[..Fits(s)], drainDone := true, totalDropped := s.totalDropped + dropped,
       past := s.past.(drained := s.past.drained + dropped))
  }

  lemma {:induction false} DrainedNext<T>(s: State<T>)
    requires s.stopped && !s.drainDone && s.ring != []
    ensures Drained(OnDrain(s)) == Drained(s)
  {
    if |s.queue| < s.room {
      assert s.queue + [s.ring[0]] + s.ring[1..][..Fits(s) - 1] == s.queue + s.ring[..Fits(s)];
    } else {
      assert s.ring[..0] == [] && s.ring[1..][..0] == [];
    }
  }

  /** The closing drain delivers what the queue has room for, oldest first, counts the rest as dropped, and then ends. */
  lemma {:induction false} Drains<T>(s: State<T>)
    requires s.stopped && !s.drainDone
    ensures Run(s, Repeat([Drain], |s.ring| + 1)) == Drained(s)
    ensures |s.queue| + |s.ring| <= s.room ==> Drained(s) == s.(ring := [], queue := s.queue + s.ring, drainDone := true)
    decreases |s.ring|
  {
    var rest: seq<Action<T>> := Repeat([Drain], |s.ring|);
    RunStep(s, Drain, rest);
    assert s.ring[..|s.ring|] == s.ring;
    if s.ring == [] {
    } else {
      DrainedNext(s);
      Drains(OnDrain(s));
    }
  }

  /** The forwarder stops only once closed, and never empty-handed while events wait. */
  lemma {:induction false} StopsOnly<T>(s: State<T>, a: Action<T>)
    requires !s.stopped && Step(s, a).stopped
    ensures s.closed && (s.hand.Full? || s.ring == [])
  {
  }

  /** Closing: the forwarder stops, its event in hand is lost, and the drain empties the ring. */
  lemma {:induction false} Closing<T>(s: State<T>)
    requires !s.stopped && !s.drainDone && (s.hand.Full? || s.ring == [])
    ensures Run(s, [Close] + ([Stop] + Repeat([Drain], |s.ring| + 1))) ==
            Drained(s.(closed := true, stopped := true, hand := Empty,
                       past := s.past.(lost := s.past.lost + if s.hand.Full? then 1 else 0)))
  {
    var s1 := s.(closed := true);
    var s2 := s1.(stopped := true, hand := Empty, past := s.past.(lost := s.past.lost + if s.hand.Full? then 1 else 0));
    assert Step(s, Close) == s1 && Step(s1, Stop) == s2;
    hide Step, Drained;
    var rest: seq<Action<T>> := Repeat([Drain], |s.ring| + 1);
    RunStep(s, Close, [Stop] + rest);
    RunStep(s1, Stop, rest);
    Drains(s2);
  }

  /** Once closed, a channel stays closed and no send that had not yet been checked is accepted. */
  lemma {:induction false} ClosedAccepts<T>(s: State<T>, actions: seq<Action<T>>)
    requires s.closed && forall p :: 0 <= p < |s.senders| ==> s.senders[p].Idle?
    ensures var s' := Run(s, actions);
            s'.closed && s'.senders == s.senders && s'.past.accepted == s.past.accepted
    decreases |actions|
  {
    if actions == [] {
    } else {
      ClosedAccepts(Step(s, actions[0]), actions[1..]);
    }
  }

  lemma {:induction false} OpenAtMost<T>(senders: seq<Phase<T>>)
    ensures OpenCount(senders) <= |senders|
  {
    if senders == [] {
    } else {
      OpenAtMost(senders[..|senders| - 1]);
    }
  }

  /** A single sender counts every drop once. */
  lemma {:induction false} OneSenderExact<T>(s: State<T>, actions: seq<Action<T>>)
    requires |s.senders| <= 1
    ensures NeverSeenTwice(s, actions)
    decreases |actions|
  {
    if actions == [] {
    } else {
      OpenAtMost(s.senders);
      OneSenderExact(Step(s, actions[0]), actions[1..]);
    }
  }

  lemma {:induction false} RunStep<T>(s: State<T>, a: Action<T>, rest: seq<Action<T>>)
    ensures Run(s, [a] + rest) == Run(Step(s, a), rest)
  {
    assert ([a] + rest)[1..] == rest;
  }

  lemma {:induction false} BothOpen<T>(a: Phase<T>, b: Phase<T>)
    requires Open(a) && Open(b)
    ensures OpenCount([a, b]) == 2
  {
    assert [a, b][..1] == [a] && [a][..0] == [];
    assert OpenCount([a]) == 1;
  }

  /** Two senders that both read before either stores into a full ring count two drops as four. */
  lemma {:induction false} TwoSendersCountTwice<T>(s: State<T>, x: T, y: T)
    requires s.cap == 1 && s.ring == [x] && !s.closed && s.senders == [Idle, Idle]
    ensures var s' := Run(s, [Check(0, x), Check(1, y), Before(0), Before(1)] + [Store(0, false), Store(1, false), After(0), After(1)]);
            s'.ringDropped == s.ringDropped + 2 && s'.totalDropped == s.totalDropped + 4 && s'.senders == [Idle, Idle]
  {
    var rest: seq<Action<T>> := [Store(0, false), Store(1, false), After(0), After(1)];
    var s4 := BothRead(s, x, y, rest);
    var s5 := s4.(ring := [x], ringDropped := s.ringDropped + 1, senders := [Pushed(true, s.ringDropped), s4.senders[1]]);
    BothOpen(s4.senders[0], s4.senders[1]);
    BothOpen(s5.senders[0], s5.senders[1]);
    assert [x] + [x] == [x, x] && [x] + [y] == [x, y] && [x, x][1..] == [x] && [x, y][1..] == [y];
    assert s4.senders[0 := s5.senders[0]] == s5.senders;
    RunStep(s4, Store(0, false), [Store(1, false), After(0), After(1)]);
    assert Step(s4, Store(0, false)).(past := s5.past) == s5;
    BothAdd(Step(s4, Store(0, false)), y);
    assert rest == [Store(0, false)] + [Store(1, false), After(0), After(1)];
  }

  /** Such a state is reached by one send into a new channel of capacity one. */
  lemma {:induction false} OneSendFills<T>(room: nat, x: T)
    ensures var s := Run(Start(1, room, 2), [Check(0, x), Before(0), Store(0, false), After(0)]);
            s.cap == 1 && s.ring == [x] && !s.closed && s.senders == [Idle, Idle]
  {
    var s0 := Start<T>(1, room, 2);
    var s1, s2 := Step(s0, Check(0, x)), Step(Step(s0, Check(0, x)), Before(0));
    var s3 := Step(s2, Store(0, false));
    assert s3.ring == [x] && s3.senders[0] == Pushed(true, 0);
    hide Step;
    var r0: seq<Action<T>> := [];
    var r1: seq<Action<T>> := [After(0)] + r0;
    var r2: seq<Action<T>> := [Store(0, false)] + r1;
    var r3: seq<Action<T>> := [Before(0)] + r2;
    RunStep(s0, Check(0, x), r3);
    RunStep(s1, Before(0), r2);
    RunStep(s2, Store(0, false), r1);
    RunStep(s3, After(0), r0);
    assert [Check(0, x), Before(0), Store(0, false), After(0)] == [Check(0, x)] + r3;
  }

  lemma {:induction false} BothRead<T>(s: State<T>, x: T, y: T, rest: seq<Action<T>>) returns (s': State<T>)
    requires !s.closed && s.senders == [Idle, Idle]
    ensures s' == s.(senders := [Loaded(x, s.ringDropped), Loaded(y, s.ringDropped)])
    ensures Run(s, [Check(0, x), Check(1, y), Before(0), Before(1)] + rest) == Run(s', rest)
  {
    var d := s.ringDropped;
    var s1, s2 := s.(senders := [Checked(x), Idle]), s.(senders := [Checked(x), Checked(y)]);
    var s3 := s.(senders := [Loaded(x, d), Checked(y)]);
    s' := s.(senders := [Loaded(x, d), Loaded(y, d)]);
    assert Step(s, Check(0, x)) == s1 by { assert s.senders[0 := Checked(x)] == s1.senders; }
    assert Step(s1, Check(1, y)) == s2 by { assert s1.senders[1 := Checked(y)] == s2.senders; }
    assert Step(s2, Before(0)) == s3 by { assert s2.senders[0 := Loaded(x, d)] == s3.senders; }
    assert Step(s3, Before(1)) == s' by { assert s3.senders[1 := Loaded(y, d)] == s'.senders; }
    hide Step;
    var r3: seq<Action<T>> := [Before(1)] + rest;
    var r2: seq<Action<T>> := [Before(0)] + r3;
    var r1: seq<Action<T>> := [Check(1, y)] + r2;
    RunStep(s, Check(0, x), r1);
    RunStep(s1, Check(1, y), r2);
    RunStep(s2, Before(0), r3);
    RunStep(s3, Before(1), rest);
    assert [Check(0, x), Check(1, y), Before(0), Before(1)] + rest == [Check(0, x)] + r1;
  }

  lemma {:induction false} BothAdd<T>(s: State<T>, y: T)
    requires s.cap == 1 && |s.ring| == 1 && s.ringDropped > 0
    requires s.senders == [Pushed(true, s.ringDropped - 1), Loaded(y, s.ringDropped - 1)]
    ensures var s' := Run(s, [Store(1, false), After(0), After(1)]);
            s'.ringDropped == s.ringDropped + 1 && s'.totalDropped == s.totalDropped + 4 && s'.senders == [Idle, Idle]
  {
    var before := s.ringDropped - 1;
    var s1 := Step(s, Store(1, false));
    BothOpen(s.senders[0], s.senders[1]);
    assert s1.senders == [Pushed(true, before), Pushed(true, before)] && s1.ringDropped == before + 2;
    var s2 := Step(s1, After(0));
    assert s2.senders == [Idle, Pushed(true, before)] && s2.totalDropped == s.totalDropped + 2;
    var s3 := Step(s2, After(1));
    assert s3.senders == [Idle, Idle] && s3.totalDropped == s.totalDropped + 4;
    hide Step;
    var r0: seq<Action<T>> := [];
    var r1: seq<Action<T>> := [After(1)] + r0;
    var r2: seq<Action<T>> := [After(0)] + r1;
    RunStep(s, Store(1, false), r2);
    RunStep(s1, After(0), r1);
    RunStep(s2, After(1), r0);
    assert [Store(1, false), After(0), After(1)] == [Store(1, false)] + r2;
  }

  lemma {:induction false} PicksPrefix<T>(ids: seq<nat>, part: seq<T>, flow: seq<T>, whole: seq<T>)
    requires Picks(ids, flow, whole) && part <= flow
    ensures InOrderPart(part, whole)
  {
    assert Picks(ids[..|part|], part, whole);
  }

  // ---------- The channel in place ----------

  class Channel<T> {
    const ring: Ring<T>
    const forwardCap: nat
    var forwardC: seq<T>
    /** The event the forwarder has popped and not yet passed on. */
    var hand: Slot<T>
    var closed: bool
    var stopped: bool
    var drainDone: bool
    var totalDropped: nat
    /** The calls of Send under way. */
    var senders: seq<Phase<T>>
    ghost var past: History<T>

    constructor (bufferSize: nat, n: nat)
      requires 0 < bufferSize <= Pow2(32)
      ensures Valid() && fresh(ring) && fresh(ring.buf) && IsLeastPow2(ring.cap, bufferSize)
      ensures View() == Start(ring.cap, if bufferSize < 64 then bufferSize else 64, n)
    {
      var r := new Ring<T>(bufferSize);
      ring, forwardCap := r, if bufferSize < 64 then bufferSize else 64;
      forwardC, hand, closed, stopped, drainDone, totalDropped := [], Empty, false, false, false, 0;
      senders := seq(n, _ => Idle);
      past := History([], [], 0, 0, 0, 0);
    }

    ghost predicate Valid()
      reads this, ring, ring.buf
    {
      ring.Valid()
    }

    ghost function View(): State<T>
      requires Valid()
      reads this, ring, ring.buf
    {
      State(ring.cap, forwardCap, ring.Contents(), ring.totalDropped, forwardC, hand,
            closed, stopped, drainDone, totalDropped, senders, past)
    }

    /** The first step of a send; a closed channel ends the call at once. */
    method CheckClosed(p: nat, ev: T)
      requires Valid()
      modifies this
      ensures Valid() && View() == OnCheck(old(View()), p, ev)
    {
      if p < |senders| && senders[p].Idle? && !closed {
        senders := senders[p := Checked(ev)];
      }
    }

    method ReadBefore(p: nat)
      requires Valid()
      modifies this
      ensures Valid() && View() == OnBefore(old(View()), p)
    {
      if p < |senders| && senders[p].Checked? {
        senders := senders[p := Loaded(senders[p].ev, ring.totalDropped)];
      }
    }

    method PushEvent(p: nat, expired: bool)
      requires Valid()
      modifies this, ring, ring.buf
      ensures Valid() && View() == OnPush(old(View()), p, expired)
    {
      hide Ring.Valid, Ring.Contents, Newest;
      if p < |senders| && senders[p].Loaded? {
        ghost var was := View();
        var ph := senders[p];
        var written := ring.Push(ph.ev, expired);
        senders := senders[p := Pushed(written, ph.before)];
        past := OnPush(was, p, expired).past;
      }
    }

    method ReadAfter(p: nat)
      requires Valid()
      modifies this
      ensures Valid() && View() == OnAfter(old(View()), p)
    {
      if p < |senders| && senders[p].Pushed? {
        var newDropped, prevDropped := ring.totalDropped, senders[p].before;
        if newDropped > prevDropped {
          totalDropped := totalDropped + (newDropped - prevDropped);
        }
        senders := senders[p := Idle];
      }
    }

    /** The forwarder takes the oldest event out of the ring. */
    method TakeFromRing()
      requires Valid()
      modifies this, ring, ring.buf
      ensures Valid() && View() == OnTake(old(View()))
    {
      hide Ring.Valid, Ring.Contents;
      if !stopped && hand.Empty? {
        hand := ring.Pop();
      }
    }

    /** The forwarder passes its event on if the consumer's channel has room. */
    method PassOn()
      requires Valid()
      modifies this
      ensures Valid() && View() == OnPass(old(View()))
    {
      if !stopped && hand.Full? && |forwardC| < forwardCap {
        forwardC := forwardC + [hand.value];
        hand := Empty;
      }
    }

    /** The consumer takes the oldest event waiting for it. */
    method Receive() returns (r: Slot<T>)
      requires Valid()
      modifies this
      ensures Valid() && View() == OnConsume(old(View()))
      ensures r == if old(forwardC) == [] then Empty else Full(old(forwardC)[0])
    {
      if |forwardC| == 0 {
        return Empty;
      }
      r := Full(forwardC[0]);
      past := past.(received := past.received + [forwardC[0]]);
      forwardC := forwardC[1..];
    }

    method BeginClose()
      requires Valid()
      modifies this
      ensures Valid() && View() == OnClose(old(View()))
    {
      closed := true;
    }

    /** The forwarder sees the stop signal and returns; an event in its hand vanishes uncounted. */
    method StopForwarder()
      requires Valid()
      modifies this
      ensures Valid() && View() == OnStop(old(View()))
    {
      var waiting := ring.Len();
      if closed && !stopped && (hand.Full? || waiting == 0) {
        past := past.(lost := past.lost + |Held(hand)|);
        hand, stopped := Empty, true;
      }
    }

    /** One round of the final drain: deliver the oldest event if there is room, else count it. */
    method DrainOne()
      requires Valid()
      modifies this, ring, ring.buf
      ensures Valid() && View() == OnDrain(old(View()))
    {
      hide Ring.Valid, Ring.Contents;
      if stopped && !drainDone {
        var r := ring.Pop();
        if r.Empty? {
          drainDone := true;
        } else if |forwardC| < forwardCap {
          forwardC := forwardC + [r.value];
        } else {
          totalDropped := totalDropped + 1;
          past := past.(drained := past.drained + 1);
        }
      }
    }

    /** A send nobody interrupts: refused when closed or expired, and its drop counted once. */
    method Send(p: nat, ev: T, expired: bool) returns (ok: bool)
      requires Valid() && p < |senders| && senders[p].Idle?
      modifies this, ring, ring.buf
      ensures Valid() && ok == (!old(closed) && !expired)
      ensures View() == OnAfter(OnPush(OnBefore(OnCheck(old(View()), p, ev), p), p, expired), p)
      ensures senders[p].Idle?
      ensures ring.Contents() == if ok then Newest(old(ring.Contents()) + [ev], ring.cap) else old(ring.Contents())
      ensures totalDropped == old(totalDropped) + if !old(closed) && (expired || |old(ring.Contents())| == ring.cap) then 1 else 0
    {
      hide Ring.Valid, Ring.Contents, Newest, OpenCount;
      ok := !closed && !expired;
      CheckClosed(p, ev);
      ReadBefore(p);
      PushEvent(p, expired);
      ReadAfter(p);
    }

    method Perform(a: Action<T>)
      requires Valid()
      modifies this, ring, ring.buf
      ensures Valid() && View() == Step(old(View()), a)
    {
      hide OnCheck, OnBefore, OnPush, OnAfter, OnTake, OnPass, OnConsume, OnClose, OnStop, OnDrain;
      match a
      case Check(p, ev) => CheckClosed(p, ev);
      case Before(p) => ReadBefore(p);
      case Store(p, expired) => PushEvent(p, expired);
      case After(p) => ReadAfter(p);
      case Take => TakeFromRing();
      case Pass => PassOn();
      case Consume => var r := Receive();
      case Close => BeginClose();
      case Stop => StopForwarder();
      case Drain => DrainOne();
    }

    /** Any schedule of steps does what it does on values. */
    method RunSchedule(actions: seq<Action<T>>)
      requires Valid()
      modifies this, ring, ring.buf
      ensures Valid() && View() == Run(old(View()), actions)
    {
      hide Step, Channel.Valid, View;
      for i := 0 to |actions|
        invariant Valid() && Run(View(), actions[i..]) == Run(old(View()), actions)
      {
        assert actions[i..][1..] == actions[i + 1..];
        Perform(actions[i]);
      }
    }
  }
}
