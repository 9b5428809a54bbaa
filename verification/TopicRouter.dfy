/**
 Demand-driven Redis subscriptions (internal/topicmanager/router.go): subscriber counts per symbol
 in sixteen shards, a flag per symbol that says whether its Redis channel is subscribed, and a
 callback on every change of a flag. Each operation is one atomic step. The hash is a parameter.
 */
module TopicRouter {
  import opened Bits
  import opened Collections

  type Topic = string
  type Id = string

  const SHARDS := 16

  datatype State = State(localCount: int, redisSub: bool)
  datatype Shard = Shard(subs: map<Topic, State>, count: int)
  datatype Change = SubscribeRequested | UnsubscribeRequested
  datatype Fired = Fired(symbol: Topic, change: Change)

  // ---------- Shards as values ----------

  function ShardFor(hash: Topic -> nat, t: Topic): (i: nat)
    ensures i < SHARDS && i == hash(t) % 16
  {
    assert Pow2(4) == 2 * Pow2(3) == SHARDS;
    MaskIsMod(hash(t), 4);
    And(hash(t), SHARDS - 1)
  }

  function StateIn(s: Shard, t: Topic): State
  {
    if t in s.subs then s.subs[t] else State(0, false)
  }

  function StateOf(hash: Topic -> nat, shards: seq<Shard>, t: Topic): State
    requires |shards| == SHARDS
  {
    StateIn(shards[ShardFor(hash, t)], t)
  }

  ghost function Flagged(subs: map<Topic, State>): set<Topic>
  {
    set t | t in subs && subs[t].redisSub
  }

  function Total(shards: seq<Shard>): int
  {
    if shards == [] then 0 else Total(shards[..|shards| - 1]) + shards[|shards| - 1].count
  }

  /** Symbols sit in their own shard, and the counters count the set flags. */
  ghost predicate Counted(hash: Topic -> nat, shards: seq<Shard>, active: int)
  {
    && |shards| == SHARDS && active == Total(shards)
    && (forall i :: 0 <= i < SHARDS ==> shards[i].count == |Flagged(shards[i].subs)|)
    && (forall i, t :: 0 <= i < SHARDS && t in shards[i].subs ==> ShardFor(hash, t) == i)
  }

  function Bit(b: bool): nat
  {
    if b then 1 else 0
  }

  function Put(s: Shard, t: Topic, st: State): Shard
  {
    Shard(s.subs[t := st], s.count + Bit(st.redisSub) - Bit(StateIn(s, t).redisSub))
  }

  lemma {:induction false} FlaggedAfter(s: Shard, t: Topic, st: State)
    ensures |Flagged(s.subs[t := st])| == |Flagged(s.subs)| + Bit(st.redisSub) - Bit(StateIn(s, t).redisSub)
  {
    var was, now := Flagged(s.subs), Flagged(s.subs[t := st]);
    assert forall u :: u in now <==> if u == t then st.redisSub else u in was;
    OneChanged(was, now, t, st.redisSub);
  }

  lemma {:induction false} OneChanged(was: set<string>, now: set<string>, x: string, b: bool)
    requires forall y :: y in now <==> if y == x then b else y in was
    ensures |now| == |was| + Bit(b) - Bit(x in was)
  {
    if b {
      assert now == was + {x};
    } else {
      assert now == was - {x};
    }
  }

  lemma {:induction false} TotalAfter(shards: seq<Shard>, i: nat, s: Shard)
    requires i < |shards|
    ensures Total(shards[i := s]) == Total(shards) + s.count - shards[i].count
  {
    var n := |shards| - 1;
    if i == n {
      assert shards[i := s][..n] == shards[..n];
    } else {
      TotalAfter(shards[..n], i, s);
      assert shards[i := s][..n] == shards[..n][i := s];
    }
  }

  /** Replacing one symbol's state keeps the counters right and every other symbol as it was. */
  lemma {:induction false} PutKeeps(hash: Topic -> nat, shards: seq<Shard>, active: int, t: Topic, st: State)
    requires Counted(hash, shards, active)
    ensures var i := ShardFor(hash, t);
            var now := shards[i := Put(shards[i], t, st)];
            && Counted(hash, now, active + Bit(st.redisSub) - Bit(StateOf(hash, shards, t).redisSub))
            && StateOf(hash, now, t) == st
            && forall u :: u != t ==> StateOf(hash, now, u) == StateOf(hash, shards, u)
  {
    var i := ShardFor(hash, t);
    FlaggedAfter(shards[i], t, st);
    TotalAfter(shards, i, Put(shards[i], t, st));
  }

  // ---------- Callbacks ----------

  /** What the callbacks so far leave subscribed. */
  function On(fired: seq<Fired>, t: Topic): bool
  {
    if fired == [] then false
    else
      var last := fired[|fired| - 1];
      if last.symbol == t then last.change == SubscribeRequested else On(fired[..|fired| - 1], t)
  }

  /** Every callback changes what is subscribed: per symbol they alternate, a subscribe first. */
  ghost predicate Alternating(fired: seq<Fired>)
  {
    forall i :: 0 <= i < |fired| ==> ((fired[i].change == SubscribeRequested) <==> !On(fired[..i], fired[i].symbol))
  }

  lemma {:induction false} FiredMore(fired: seq<Fired>, f: Fired)
    requires Alternating(fired) && ((f.change == SubscribeRequested) <==> !On(fired, f.symbol))
    ensures Alternating(fired + [f])
    ensures forall t :: On(fired + [f], t) == if t == f.symbol then f.change == SubscribeRequested else On(fired, t)
  {
    var now := fired + [f];
    assert now[..|fired|] == fired;
    forall i | 0 <= i < |now|
      ensures (now[i].change == SubscribeRequested) <==> !On(now[..i], now[i].symbol)
    {
      if i < |fired| {
        assert now[..i] == fired[..i];
      }
    }
  }

  /** Between two callbacks for a symbol with none in between, the change is the other one. */
  lemma {:induction false} AlternatePerSymbol(fired: seq<Fired>, i: nat, j: nat)
    requires Alternating(fired) && i < j < |fired| && fired[i].symbol == fired[j].symbol
    requires forall k :: i < k < j ==> fired[k].symbol != fired[i].symbol
    ensures fired[i].change != fired[j].change
  {
    OnSince(fired, i, j, fired[i].symbol);
  }

  lemma {:induction false} OnSince(fired: seq<Fired>, i: nat, j: nat, t: Topic)
    requires i < j <= |fired| && fired[i].symbol == t && forall k :: i < k < j ==> fired[k].symbol != t
    ensures On(fired[..j], t) == (fired[i].change == SubscribeRequested)
  {
    assert fired[..j][..j - 1] == fired[..j - 1];
    if j == i + 1 {
    } else {
      OnSince(fired, i, j - 1, t);
    }
  }

  // ---------- Who tracks what ----------

  ghost function Trackers(subs: map<Id, seq<Topic>>, t: Topic): set<Id>
  {
    set id | id in subs && t in subs[id]
  }

  function TopicsOf(subs: map<Id, seq<Topic>>, id: Id): seq<Topic>
  {
    if id in subs then subs[id] else []
  }

  function Merge(existing: seq<Topic>, topics: seq<Topic>): seq<Topic>
  {
    if topics == [] then existing
    else
      var n := |topics| - 1;
      var merged := Merge(existing, topics[..n]);
      if topics[n] in merged then merged else merged + [topics[n]]
  }

  lemma {:induction false} MergeIs(existing: seq<Topic>, topics: seq<Topic>)
    ensures forall t :: t in Merge(existing, topics) <==> t in existing || t in topics
    ensures Distinct(existing) ==> Distinct(Merge(existing, topics))
  {
    if topics == [] {
    } else {
      var n := |topics| - 1;
      MergeIs(existing, topics[..n]);
      assert topics == topics[..n] + [topics[n]];
    }
  }

  ghost predicate AllDistinct(subs: map<Id, seq<Topic>>)
  {
    forall id :: id in subs ==> Distinct(subs[id])
  }

  lemma {:induction false} DistinctAfter(subs: map<Id, seq<Topic>>, id: Id, topics: seq<Topic>)
    requires AllDistinct(subs)
    ensures AllDistinct(subs[id := Merge(TopicsOf(subs, id), topics)])
  {
    MergeIs(TopicsOf(subs, id), topics);
  }

  lemma {:induction false} DistinctWithout(subs: map<Id, seq<Topic>>, id: Id)
    requires AllDistinct(subs) && id in subs
    ensures Distinct(subs[id]) && AllDistinct(subs - {id})
  {
    var now := subs - {id};
    assert forall x :: x in now ==> x in subs && now[x] == subs[x];
  }

  function Count(topics: seq<Topic>, t: Topic): nat
  {
    if topics == [] then 0 else Count(topics[..|topics| - 1], t) + Bit(topics[|topics| - 1] == t)
  }

  lemma {:induction false} CountIs(topics: seq<Topic>, t: Topic)
    ensures (t in topics) <==> Count(topics, t) > 0
    ensures Distinct(topics) ==> Count(topics, t) == Bit(t in topics)
  {
    if topics == [] {
    } else {
      var n := |topics| - 1;
      CountIs(topics[..n], t);
      assert topics == topics[..n] + [topics[n]];
    }
  }

  lemma {:induction false} TrackersAfter(subs: map<Id, seq<Topic>>, id: Id, topics: seq<Topic>, t: Topic)
    ensures |Trackers(subs[id := topics], t)| == |Trackers(subs, t)| + Bit(t in topics) - Bit(t in TopicsOf(subs, id))
  {
    OneChanged(Trackers(subs, t), Trackers(subs[id := topics], t), id, t in topics);
  }

  lemma {:induction false} TrackersWithout(subs: map<Id, seq<Topic>>, id: Id, t: Topic)
    ensures |Trackers(subs - {id}, t)| == |Trackers(subs, t)| - Bit(t in TopicsOf(subs, id))
  {
    OneChanged(Trackers(subs, t), Trackers(subs - {id}, t), id, false);
  }

  /** Subscriptions of `t` in one call that add no tracker: it was tracked already, or is named again. */
  function Repeats(existing: seq<Topic>, topics: seq<Topic>, t: Topic): int
  {
    Count(topics, t) - Bit(t in topics && t !in existing)
  }

  // ---------- The router ----------

  class DistributedRouter {
    const hash: Topic -> nat
    const shards: array<Shard>
    var active: int
    var subs: map<Id, seq<Topic>>
    /** The callbacks made, in order. */
    var fired: seq<Fired>

    ghost predicate Counters()
      reads `active, shards
    {
      Counted(hash, shards[..], active)
    }

    function Of(t: Topic): State
      requires shards.Length == SHARDS
      reads shards
    {
      StateOf(hash, shards[..], t)
    }

    /** A flag is set exactly where there is demand. */
    ghost predicate Demand()
      requires shards.Length == SHARDS
      reads shards
    {
      forall t :: Of(t).localCount >= 0 && (Of(t).redisSub <==> Of(t).localCount > 0)
    }

    /** Subscriptions counted for a topic beyond its trackers. */
    ghost function Extra(t: Topic): int
      requires shards.Length == SHARDS
      reads `subs, shards
    {
      Of(t).localCount - |Trackers(subs, t)|
    }

    ghost predicate Valid()
      reads this, shards
    {
      && shards.Length == SHARDS && Counters() && Demand()
      && AllDistinct(subs)
      && (forall t :: Extra(t) >= 0)
      && Alternating(fired) && (forall t :: On(fired, t) == Of(t).redisSub)
    }

    constructor (hash: Topic -> nat)
      ensures Valid() && this.hash == hash && subs == map[] && fired == [] && fresh(shards)
      ensures forall t :: Extra(t) == 0
    {
      this.hash := hash;
      shards := new Shard[SHARDS](_ => Shard(map[], 0));
      active, subs, fired := 0, map[], [];
      new;
      TotalNone(shards[..]);
      assert forall t :: Trackers(subs, t) == {};
      assert forall m: map<Topic, State> :: m == map[] ==> Flagged(m) == {};
    }

    method Store(t: Topic, st: State)
      requires shards.Length == SHARDS && Counters()
      modifies shards, `active
      ensures Counters() && Of(t) == st
      ensures forall u :: u != t ==> Of(u) == old(Of(u))
      ensures active == old(active) + Bit(st.redisSub) - Bit(old(Of(t)).redisSub)
    {
      hide Counted, StateOf;
      var i := ShardFor(hash, t);
      ghost var was := shards[..];
      PutKeeps(hash, was, active, t, st);
      active := active + Bit(st.redisSub) - Bit(StateIn(shards[i], t).redisSub);
      StateHere(hash, was, t);
      shards[i] := Put(shards[i], t, st);
      assert shards[..] == was[i := Put(was[i], t, st)];
    }

    /** One more local subscriber; `first` when the symbol's channel must now be subscribed. */
    method AddLocal(t: Topic) returns (first: bool)
      requires shards.Length == SHARDS && Counters() && Demand()
      modifies shards, `active
      ensures Counters() && Demand()
      ensures Of(t).localCount == old(Of(t)).localCount + 1 && first == !old(Of(t)).redisSub
      ensures forall u :: u != t ==> Of(u) == old(Of(u))
    {
      hide Counted, StateOf;
      ghost var was := shards[..];
      StateHere(hash, was, t);
      var st := StateIn(shards[ShardFor(hash, t)], t);
      st := st.(localCount := st.localCount + 1);
      first := false;
      if st.localCount == 1 && !st.redisSub {
        st := st.(redisSub := true);
        first := true;
      }
      Store(t, st);
    }

    /** One local subscriber fewer; `last` when the symbol's channel must now be unsubscribed. */
    method DropLocal(t: Topic) returns (last: bool)
      requires shards.Length == SHARDS && Counters() && Demand()
      modifies shards, `active
      ensures Counters() && Demand()
      ensures Of(t).localCount == if old(Of(t)).localCount > 0 then old(Of(t)).localCount - 1 else 0
      ensures last == (old(Of(t)).redisSub && !Of(t).redisSub)
      ensures forall u :: u != t ==> Of(u) == old(Of(u))
    {
      hide Counted, StateOf;
      ghost var was := shards[..];
      StateHere(hash, was, t);
      last := false;
      if t !in shards[ShardFor(hash, t)].subs {
        return;
      }
      var st := shards[ShardFor(hash, t)].subs[t];
      st := st.(localCount := if st.localCount - 1 < 0 then 0 else st.localCount - 1);
      if st.localCount == 0 && st.redisSub {
        st := st.(redisSub := false);
        last := true;
      }
      Store(t, st);
    }

    /** Subscribe, without the hand-over to the local topic manager. */
    method Subscribe(id: Id, topics: seq<Topic>)
      requires Valid()
      modifies this`active, this`subs, this`fired, shards
      ensures Valid()
      ensures subs == old(subs)[id := Merge(TopicsOf(old(subs), id), topics)]
      ensures forall t :: Of(t).localCount == old(Of(t)).localCount + Count(topics, t)
      ensures forall t :: Extra(t) == old(Extra(t)) + Repeats(TopicsOf(old(subs), id), topics, t)
      ensures old(fired) <= fired
    {
      hide StateOf, Counted, Alternating, On, AllDistinct;
      ghost var existing := TopicsOf(subs, id);
      MergeIs(existing, topics);
      DistinctAfter(subs, id, topics);
      var merged := MergeTopics(TopicsOf(subs, id), topics);
      subs := subs[id := merged];
      var toSubscribe, log := AddAll(topics);
      FireAll(toSubscribe, SubscribeRequested, log);
      forall t
        ensures Extra(t) == old(Extra(t)) + Repeats(existing, topics, t) && Repeats(existing, topics, t) >= 0
      {
        TrackersAfter(old(subs), id, merged, t);
        CountIs(topics, t);
      }
    }

    static method MergeTopics(existing: seq<Topic>, topics: seq<Topic>) returns (merged: seq<Topic>)
      ensures merged == Merge(existing, topics)
    {
      merged := existing;
      for i := 0 to |topics|
        invariant merged == Merge(existing, topics[..i])
      {
        assert topics[..i + 1][..i] == topics[..i];
        var found := false;
        for j := 0 to |merged|
          invariant found == (topics[i] in merged[..j])
        {
          if merged[j] == topics[i] {
            found := true;
            break;
          }
        }
        if !found {
          merged := merged + [topics[i]];
        }
      }
      assert topics[..|topics|] == topics;
    }

    /** The counting loop: the symbols whose channel must be subscribed, and the callbacks they call for. */
    method AddAll(topics: seq<Topic>) returns (changed: seq<Topic>, ghost log: seq<Fired>)
      requires shards.Length == SHARDS && Counters() && Demand()
      requires Alternating(fired) && forall t :: On(fired, t) == Of(t).redisSub
      modifies this`active, shards
      ensures Counters() && Demand()
      ensures forall t :: Of(t).localCount == old(Of(t)).localCount + Count(topics, t)
      ensures log == fired + Events(changed, SubscribeRequested) && Alternating(log) && forall t :: On(log, t) == Of(t).redisSub
    {
      hide StateOf, Counted, Alternating, On;
      changed, log := [], fired;
      for i := 0 to |topics|
        invariant Counters() && Demand()
        invariant forall t :: Of(t).localCount == old(Of(t)).localCount + Count(topics[..i], t)
        invariant log == fired + Events(changed, SubscribeRequested) && Alternating(log) && forall t :: On(log, t) == Of(t).redisSub
      {
        assert topics[..i + 1][..i] == topics[..i];
        var first := AddLocal(topics[i]);
        if first {
          FiredMore(log, Fired(topics[i], SubscribeRequested));
          changed, log := changed + [topics[i]], log + [Fired(topics[i], SubscribeRequested)];
        }
      }
      assert topics[..|topics|] == topics;
    }

    method FireAll(changed: seq<Topic>, change: Change, ghost log: seq<Fired>)
      requires log == fired + Events(changed, change)
      modifies this`fired
      ensures fired == log
    {
      for i := 0 to |changed|
        invariant fired == old(fired) + Events(changed[..i], change)
      {
        fired := fired + [Fired(changed[i], change)];
      }
      assert changed[..|changed|] == changed;
    }

    /** Unsubscribe: the id's topics each lose one subscriber. */
    method Unsubscribe(id: Id)
      requires Valid()
      modifies this`active, this`subs, this`fired, shards
      ensures Valid()
      ensures subs == old(subs) - {id}
      ensures forall t :: Of(t).localCount == old(Of(t)).localCount - Bit(t in TopicsOf(old(subs), id))
      ensures forall t :: Extra(t) == old(Extra(t))
      ensures old(fired) <= fired
    {
      hide StateOf, Counted, Alternating, On, AllDistinct;
      if id !in subs {
        assert subs == subs - {id};
        return;
      }
      var topics := subs[id];
      DistinctWithout(subs, id);
      forall t
        ensures |Trackers(subs - {id}, t)| == |Trackers(subs, t)| - Bit(t in topics)
        ensures Of(t).localCount >= Bit(t in topics) && Count(topics, t) == Bit(t in topics)
      {
        TrackersWithout(subs, id, t);
        CountIs(topics, t);
        assert Extra(t) >= 0;
      }
      subs := subs - {id};
      var toUnsubscribe, log := DropAll(topics);
      FireAll(toUnsubscribe, UnsubscribeRequested, log);
      forall t
        ensures Extra(t) == old(Extra(t))
      {
        assert Of(t).localCount == old(Of(t)).localCount - Count(topics, t);
      }
    }

    method DropAll(topics: seq<Topic>) returns (changed: seq<Topic>, ghost log: seq<Fired>)
      requires shards.Length == SHARDS && Counters() && Demand()
      requires forall t :: Of(t).localCount >= Count(topics, t)
      requires Alternating(fired) && forall t :: On(fired, t) == Of(t).redisSub
      modifies this`active, shards
      ensures Counters() && Demand()
      ensures forall t :: Of(t).localCount == old(Of(t)).localCount - Count(topics, t)
      ensures log == fired + Events(changed, UnsubscribeRequested) && Alternating(log) && forall t :: On(log, t) == Of(t).redisSub
    {
      hide StateOf, Counted, Alternating, On, Count;
      NothingCounted();
      changed, log := [], fired;
      for i := 0 to |topics|
        invariant Counters() && Demand()
        invariant forall t :: Of(t).localCount == old(Of(t)).localCount - Count(topics[..i], t)
        invariant log == fired + Events(changed, UnsubscribeRequested) && Alternating(log) && forall t :: On(log, t) == Of(t).redisSub
      {
        forall t
          ensures Count(topics[..i + 1], t) == Count(topics[..i], t) + Bit(topics[i] == t)
        {
          CountNext(topics, i, t);
        }
        CountGrows(topics, i + 1, topics[i]);
        assert old(Of(topics[i])).localCount >= Count(topics, topics[i]);
        var last := DropLocal(topics[i]);
        if last {
          FiredMore(log, Fired(topics[i], UnsubscribeRequested));
          changed, log := changed + [topics[i]], log + [Fired(topics[i], UnsubscribeRequested)];
        }
      }
      assert topics[..|topics|] == topics;
    }

    /** One symbol of a reconciliation: its flag is brought in line with its demand. */
    method Retry(t: Topic)
      requires shards.Length == SHARDS && Counters()
      modifies shards, `active, `fired
      ensures Counters() && Of(t) == State(old(Of(t)).localCount, old(Of(t)).localCount > 0)
      ensures forall u :: u != t ==> Of(u) == old(Of(u))
      ensures if Agrees(old(Of(t))) then fired == old(fired) && active == old(active) && shards[..] == old(shards[..])
              else fired == old(fired) + [Fired(t, if old(Of(t)).localCount > 0 then SubscribeRequested else UnsubscribeRequested)]
    {
      hide Counted, StateOf;
      StateHere(hash, shards[..], t);
      var st := StateIn(shards[ShardFor(hash, t)], t);
      if st.localCount > 0 && !st.redisSub {
        st := st.(redisSub := true);
        Store(t, st);
        fired := fired + [Fired(t, SubscribeRequested)];
      }
      if st.localCount <= 0 && st.redisSub {
        st := st.(redisSub := false);
        Store(t, st);
        fired := fired + [Fired(t, UnsubscribeRequested)];
      }
    }

    /** What a reconciliation has changed since `was`: only flags that disagreed with their demand. */
    ghost predicate Retried(was: seq<Shard>, wasActive: int, wasFired: seq<Fired>)
      requires shards.Length == SHARDS && |was| == SHARDS
      reads shards, `active, `fired
    {
      && (forall t :: Of(t).localCount == StateOf(hash, was, t).localCount)
      && (forall t :: Agrees(StateOf(hash, was, t)) ==> Of(t) == StateOf(hash, was, t))
      && wasFired <= fired
      && (forall k :: |wasFired| <= k < |fired| ==> Answers(StateOf(hash, was, fired[k].symbol), fired[k].change))
      && (fired == wasFired ==> active == wasActive && shards[..] == was)
    }

    /**
     Reconcile, from any flags whatever: afterwards every flag agrees with its demand, and callbacks
     were made only for those that did not. From a valid state nothing happens.
     */
    method Reconcile()
      requires shards.Length == SHARDS && Counters()
      modifies shards, `active, `fired
      ensures Counters() && forall t :: Agrees(Of(t))
      ensures Retried(old(shards[..]), old(active), old(fired))
      ensures old(Valid()) ==> Valid() && fired == old(fired) && active == old(active) && shards[..] == old(shards[..])
    {
      hide Counted, StateOf, On, Alternating, AllDistinct;
      for i := 0 to SHARDS
        invariant Counters() && Retried(old(shards[..]), old(active), old(fired))
        invariant forall t :: ShardFor(hash, t) < i ==> Agrees(Of(t))
      {
        ReconcileShard(i, old(shards[..]), old(active), old(fired));
      }
      if |fired| > |old(fired)| {
        ghost var f := fired[|old(fired)|];
        assert Answers(StateOf(hash, old(shards[..]), f.symbol), f.change);
        assert !Agrees(old(Of(f.symbol)));
      }
      assert old(Valid()) ==> fired == old(fired) && shards[..] == old(shards[..]);
      if shards[..] == old(shards[..]) {
        assert forall t :: Of(t) == old(Of(t));
        assert old(Valid()) ==> Demand();
        assert forall t :: Extra(t) == old(Extra(t));
        assert old(Valid()) ==> forall t :: Extra(t) >= 0;
        assert old(Valid()) ==> forall t :: On(fired, t) == Of(t).redisSub;
      }
    }

    method ReconcileShard(i: nat, ghost was: seq<Shard>, ghost wasActive: int, ghost wasFired: seq<Fired>)
      requires shards.Length == SHARDS && i < SHARDS && |was| == SHARDS
      requires Counters() && Retried(was, wasActive, wasFired)
      modifies shards, `active, `fired
      ensures Counters() && Retried(was, wasActive, wasFired)
      ensures forall t :: ShardFor(hash, t) == i ==> Agrees(Of(t))
      ensures forall t :: ShardFor(hash, t) != i ==> Of(t) == old(Of(t))
    {
      hide Counted, StateOf, ShardFor;
      var pending := shards[i].subs.Keys;
      InOwnShard(hash, shards[..], active, i);
      while pending != {}
        invariant Counters() && Retried(was, wasActive, wasFired)
        invariant forall t :: t in pending ==> ShardFor(hash, t) == i
        invariant forall t :: ShardFor(hash, t) == i && t !in pending ==> Agrees(Of(t))
        invariant forall t :: ShardFor(hash, t) != i ==> Of(t) == old(Of(t))
        decreases pending
      {
        var t :| t in pending;
        Retry(t);
        pending := pending - {t};
      }
    }
  }

  predicate Agrees(st: State)
  {
    st.redisSub <==> st.localCount > 0
  }

  /** The change a symbol's state asks for. */
  predicate Answers(st: State, change: Change)
  {
    !Agrees(st) && (change == SubscribeRequested <==> st.localCount > 0)
  }

  lemma {:induction false} InOwnShard(hash: Topic -> nat, shards: seq<Shard>, active: int, i: nat)
    requires Counted(hash, shards, active) && i < SHARDS
    ensures forall t :: t in shards[i].subs.Keys ==> ShardFor(hash, t) == i
    ensures forall t :: ShardFor(hash, t) == i && t !in shards[i].subs.Keys ==> StateOf(hash, shards, t) == State(0, false)
  {
  }

  // ---------- Any run ----------

  datatype Op = DoSubscribe(id: Id, topics: seq<Topic>) | DoUnsubscribe(id: Id) | DoReconcile

  function Tracked(ops: seq<Op>): map<Id, seq<Topic>>
  {
    if ops == [] then map[]
    else
      var before := Tracked(ops[..|ops| - 1]);
      match ops[|ops| - 1]
      case DoSubscribe(id, topics) => before[id := Merge(TopicsOf(before, id), topics)]
      case DoUnsubscribe(id) => before - {id}
      case DoReconcile => before
  }

  /** Over a run, the subscriptions of `t` that added no tracker. */
  function Repeated(ops: seq<Op>, t: Topic): int
  {
    if ops == [] then 0
    else
      var earlier := ops[..|ops| - 1];
      match ops[|ops| - 1]
      case DoSubscribe(id, topics) => Repeated(earlier, t) + Repeats(TopicsOf(Tracked(earlier), id), topics, t)
      case DoUnsubscribe(_) => Repeated(earlier, t)
      case DoReconcile => Repeated(earlier, t)
  }

  /** No call names a topic twice, or one its id tracks already. */
  ghost predicate NeverRepeats(ops: seq<Op>, t: Topic)
  {
    forall k :: 0 <= k < |ops| && ops[k].DoSubscribe? ==>
      Count(ops[k].topics, t) <= Bit(t !in TopicsOf(Tracked(ops[..k]), ops[k].id))
  }

  /** A topic's count is its number of trackers exactly when nobody ever repeated it. */
  lemma {:induction false} RepeatedIff(ops: seq<Op>, t: Topic)
    ensures Repeated(ops, t) >= 0
    ensures Repeated(ops, t) == 0 <==> NeverRepeats(ops, t)
  {
    if ops == [] {
    } else {
      var n := |ops| - 1;
      RepeatedIff(ops[..n], t);
      assert forall k :: 0 <= k < n ==> ops[..n][..k] == ops[..k];
      if ops[n].DoSubscribe? {
        CountIs(ops[n].topics, t);
      }
    }
  }

  method Perform(r: DistributedRouter, op: Op)
    requires r.Valid()
    modifies r, r.shards
    ensures r.Valid() && old(r.fired) <= r.fired
    ensures op.DoReconcile? ==> r.fired == old(r.fired) && r.shards[..] == old(r.shards[..])
    ensures r.subs == (match op
                       case DoSubscribe(id, topics) => old(r.subs)[id := Merge(TopicsOf(old(r.subs), id), topics)]
                       case DoUnsubscribe(id) => old(r.subs) - {id}
                       case DoReconcile => old(r.subs))
    ensures forall t :: r.Extra(t) == old(r.Extra(t)) + if op.DoSubscribe? then Repeats(TopicsOf(old(r.subs), op.id), op.topics, t) else 0
  {
    hide StateOf, Counted, Alternating, On, AllDistinct;
    match op {
      case DoSubscribe(id, topics) => r.Subscribe(id, topics);
      case DoUnsubscribe(id) => r.Unsubscribe(id);
      case DoReconcile =>
        r.Reconcile();
        assert forall t :: r.Of(t) == old(r.Of(t));
    }
  }

  /** Every reachable router is valid, and counts each topic's trackers plus the repeats of the run. */
  method AnyRun(r: DistributedRouter, ops: seq<Op>)
    requires r.Valid() && r.subs == map[] && forall t :: r.Extra(t) == 0
    modifies r, r.shards
    ensures r.Valid() && r.subs == Tracked(ops)
    ensures forall t :: r.Of(t).localCount == |Trackers(Tracked(ops), t)| + Repeated(ops, t)
  {
    hide DistributedRouter.Valid, StateOf, Repeats;
    KeepsShape(r);
    for i := 0 to |ops|
      invariant r.Valid() && r.shards.Length == SHARDS && r.subs == Tracked(ops[..i])
      invariant forall t :: r.Extra(t) == Repeated(ops[..i], t)
    {
      assert ops[..i + 1][..i] == ops[..i];
      Perform(r, ops[i]);
    }
    assert ops[..|ops|] == ops;
    assert forall t :: r.Extra(t) == Repeated(ops, t);
  }

  /**
   One subscription that names a topic twice is never paid back: after the unsubscription nobody
   tracks the topic, and yet its count is 1 and its channel stays subscribed.
   */
  method RepeatLeaks(r: DistributedRouter, id: Id, t: Topic)
    requires r.Valid() && r.subs == map[] && forall u :: r.Extra(u) == 0
    modifies r, r.shards
    ensures r.Valid() && r.subs == map[] && r.Of(t) == State(1, true)
  {
    hide StateOf, Counted, Alternating, On, AllDistinct;
    NamedTwice(t);
    TrackersNone(t);
    r.Subscribe(id, [t, t]);
    r.Unsubscribe(id);
    assert r.subs == map[];
    assert r.Extra(t) == 1;
  }

  lemma {:induction false} NamedTwice(t: Topic)
    ensures Repeats([], [t, t], t) == 1
  {
    assert [t, t][..1] == [t] && [t][..0] == [];
    assert Count([t], t) == 1;
  }

  lemma {:induction false} TrackersNone(t: Topic)
    ensures Trackers(map[], t) == {}
  {
  }

  lemma {:induction false} KeepsShape(r: DistributedRouter)
    requires r.Valid()
    ensures r.shards.Length == SHARDS
  {
  }

  function Events(symbols: seq<Topic>, change: Change): seq<Fired>
  {
    seq(|symbols|, i requires 0 <= i < |symbols| => Fired(symbols[i], change))
  }

  lemma {:induction false} NothingCounted()
    ensures forall t :: Count([], t) == 0
  {
  }

  lemma {:induction false} CountNext(topics: seq<Topic>, i: nat, t: Topic)
    requires i < |topics|
    ensures Count(topics[..i + 1], t) == Count(topics[..i], t) + Bit(topics[i] == t)
  {
    assert topics[..i + 1][..i] == topics[..i];
  }

  lemma {:induction false} CountGrows(topics: seq<Topic>, i: nat, t: Topic)
    requires i <= |topics|
    ensures Count(topics[..i], t) <= Count(topics, t)
    decreases |topics| - i
  {
    if i == |topics| {
      assert topics[..i] == topics;
    } else {
      assert topics[..i + 1][..i] == topics[..i];
      CountGrows(topics, i + 1, t);
    }
  }

  lemma {:induction false} StateHere(hash: Topic -> nat, shards: seq<Shard>, t: Topic)
    requires |shards| == SHARDS
    ensures StateOf(hash, shards, t) == StateIn(shards[ShardFor(hash, t)], t)
  {
  }

  lemma {:induction false} TotalNone(shards: seq<Shard>)
    requires forall i :: 0 <= i < |shards| ==> shards[i].count == 0
    ensures Total(shards) == 0
  {
    if shards == [] {
    } else {
      TotalNone(shards[..|shards| - 1]);
    }
  }
}
