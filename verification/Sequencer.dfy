/**
 Sequence numbers from blocks reserved in Redis (internal/sequencer/redis_sequencer.go): any number
 of sequencers, in any interleaving, each serving from the block it last reserved.
 */
module Sequencer {
  import opened Bytes

  const BLOCK_SIZE := 10000

  datatype Block = Block(current: int, max: int)

  /** How an INCRBY goes: answered, lost before it reached the counter, or lost after it changed it. */
  datatype Fault = Answered | LostBefore | LostAfter

  function At(counters: map<string, int>, key: string): int
  {
    if key in counters then counters[key] else 0
  }

  /** The counters after an INCRBY: unchanged if it was lost on the way or would leave int64. */
  function Incremented(counters: map<string, int>, key: string, n: int, fault: Fault): (r: map<string, int>)
    ensures forall k :: k != key ==> At(r, k) == At(counters, k)
    ensures At(r, key) == At(counters, key) + if fault != LostBefore && At(counters, key) + n < TWO_63 then n else 0
  {
    var now := At(counters, key) + n;
    if fault == LostBefore || now >= TWO_63 then counters else counters[key := now]
  }

  class Redis {
    var counters: map<string, int>

    constructor ()
      ensures counters == map[]
    {
      counters := map[];
    }

    /** A counter that would leave int64 is an error and stays as it is. */
    method IncrBy(key: string, n: int, fault: Fault) returns (ok: bool, val: int)
      modifies this
      ensures counters == Incremented(old(counters), key, n, fault)
      ensures ok == (fault == Answered && At(old(counters), key) + n < TWO_63)
      ensures ok ==> val == At(counters, key)
    {
      var now := At(counters, key) + n;
      if fault == LostBefore || now >= TWO_63 {
        return false, 0;
      }
      counters := counters[key := now];
      return fault == Answered, now;
    }
  }

  class RedisSequencer {
    const prefix: string
    var blocks: map<string, Block>

    constructor (prefix: string)
      ensures this.prefix == (if prefix == "" then "seq:" else prefix) && blocks == map[]
    {
      this.prefix := if prefix == "" then "seq:" else prefix;
      blocks := map[];
    }

    function BlockOf(symbol: string): Block
      reads this
    {
      if symbol in blocks then blocks[symbol] else Block(0, 0)
    }

    /** The next number of the block, after reserving a new one if it is used up; 0 if that fails. */
    method Next(redis: Redis, symbol: string, fault: Fault) returns (n: int)
      modifies this`blocks, redis
      ensures forall s :: s != symbol ==> BlockOf(s) == old(BlockOf(s))
      ensures var was, c := old(BlockOf(symbol)), old(At(redis.counters, prefix + symbol));
              if was.current < was.max then
                n == was.current + 1 && BlockOf(symbol) == Block(n, was.max) && redis.counters == old(redis.counters)
              else
                && redis.counters == Incremented(old(redis.counters), prefix + symbol, BLOCK_SIZE, fault)
                && if fault == Answered && c + BLOCK_SIZE < TWO_63 then
                     n == c + 1 && BlockOf(symbol) == Block(n, c + BLOCK_SIZE)
                   else n == 0 && BlockOf(symbol) == was
    {
      var blk := Block(0, 0);
      if symbol in blocks {
        blk := blocks[symbol];
      } else {
        blocks := blocks[symbol := blk];
      }
      if blk.current >= blk.max {
        var ok, val := redis.IncrBy(prefix + symbol, BLOCK_SIZE, fault);
        if !ok {
          return 0;
        }
        blk := Block(val - BLOCK_SIZE, val);
      }
      blk := blk.(current := blk.current + 1);
      blocks := blocks[symbol := blk];
      return blk.current;
    }
  }

  // ---------- Many sequencers ----------

  datatype Call = Call(instance: nat, symbol: string, fault: Fault)

  /** Who holds a block: a sequencer, for a symbol. */
  datatype Holder = Holder(instance: nat, symbol: string)

  datatype Issue = Issue(holder: Holder, key: string, number: int)

  /** The counters and every holder's block and key, as values. */
  datatype World = World(counters: map<string, int>, blocks: map<Holder, Block>, prefixes: seq<string>)
  {
    function BlockOf(h: Holder): Block
    {
      if h in blocks then blocks[h] else Block(0, 0)
    }

    function Key(h: Holder): string
    {
      if h.instance < |prefixes| then prefixes[h.instance] + h.symbol else h.symbol
    }

    /** Numbers reserved by a holder and not yet issued. */
    predicate Holds(h: Holder, n: int)
    {
      BlockOf(h).current < n <= BlockOf(h).max
    }
  }

  ghost predicate BlocksReserved(w: World)
  {
    forall h: Holder :: 0 <= w.BlockOf(h).current <= w.BlockOf(h).max <= At(w.counters, w.Key(h))
  }

  ghost predicate BlocksApart(w: World)
  {
    forall g: Holder, h: Holder, n: int :: g != h && w.Key(g) == w.Key(h) && w.Holds(g, n) ==> !w.Holds(h, n)
  }

  /** An issued number is within its counter, behind its holder's block, and held by nobody. */
  ghost predicate Spent(w: World, x: Issue)
  {
    && x.key == w.Key(x.holder) && 0 < x.number <= At(w.counters, x.key)
    && x.number <= w.BlockOf(x.holder).current
    && forall h: Holder :: w.Key(h) == x.key ==> !w.Holds(h, x.number)
  }

  ghost predicate AllSpent(w: World, log: seq<Issue>)
  {
    forall i :: 0 <= i < |log| && log[i].number != 0 ==> Spent(w, log[i])
  }

  /** No number twice under a key; each holder's numbers increase. Zero is a failed call. */
  ghost predicate Unique(log: seq<Issue>)
  {
    forall i, j :: 0 <= i < j < |log| && log[i].number != 0 && log[j].number != 0 ==>
      && (log[i].key == log[j].key ==> log[i].number != log[j].number)
      && (log[i].holder == log[j].holder ==> log[i].number < log[j].number)
  }

  ghost predicate Inv(w: World, log: seq<Issue>)
  {
    BlocksReserved(w) && BlocksApart(w) && AllSpent(w, log) && Unique(log)
  }

  /** One call by holder `h`: from its block, or from a block just reserved, or none. */
  ghost predicate Stepped(w: World, w': World, h: Holder, n: int)
  {
    && w'.prefixes == w.prefixes
    && (forall g: Holder :: g != h ==> w'.BlockOf(g) == w.BlockOf(g))
    && (forall k :: k != w.Key(h) ==> At(w'.counters, k) == At(w.counters, k))
    && var was, c, c' := w.BlockOf(h), At(w.counters, w.Key(h)), At(w'.counters, w.Key(h));
       || (was.current < was.max && n == was.current + 1 && w'.BlockOf(h) == Block(n, was.max) && c' == c)
       || (was.current >= was.max && n == c + 1 && w'.BlockOf(h) == Block(n, c + BLOCK_SIZE) && c' == c + BLOCK_SIZE)
       || (n == 0 && w'.BlockOf(h) == was && c' >= c)
  }

  lemma {:induction false} StepReserved(w: World, w': World, h: Holder, n: int)
    requires BlocksReserved(w) && Stepped(w, w', h, n)
    ensures BlocksReserved(w')
  {
    forall g: Holder
      ensures 0 <= w'.BlockOf(g).current <= w'.BlockOf(g).max <= At(w'.counters, w'.Key(g))
    {
      assert 0 <= w.BlockOf(g).current <= w.BlockOf(g).max <= At(w.counters, w.Key(g));
      assert w'.Key(g) == w.Key(g);
    }
  }

  lemma {:induction false} StepHolds(w: World, w': World, h: Holder, n: int, g: Holder, x: int)
    requires BlocksReserved(w) && Stepped(w, w', h, n) && w'.Holds(g, x)
    ensures w'.Key(g) == w.Key(g) && (w.Holds(g, x) || (g == h && x > At(w.counters, w.Key(h)))) && (g == h ==> x != n)
  {
  }

  lemma {:induction false} StepApart(w: World, w': World, h: Holder, n: int)
    requires BlocksReserved(w) && BlocksApart(w) && Stepped(w, w', h, n)
    ensures BlocksApart(w')
  {
    forall f: Holder, g: Holder, x: int | f != g && w'.Key(f) == w'.Key(g) && w'.Holds(f, x)
      ensures !w'.Holds(g, x)
    {
      StepHolds(w, w', h, n, f, x);
      NotBoth(w, w', h, n, f, g, x);
    }
  }

  lemma {:induction false} NotBoth(w: World, w': World, h: Holder, n: int, f: Holder, g: Holder, x: int)
    requires BlocksReserved(w) && BlocksApart(w) && Stepped(w, w', h, n)
    requires f != g && w.Key(f) == w.Key(g) && (w.Holds(f, x) || (f == h && x > At(w.counters, w.Key(h))))
    ensures !w'.Holds(g, x)
  {
    assert w.BlockOf(g).max <= At(w.counters, w.Key(g)) && w.BlockOf(f).max <= At(w.counters, w.Key(f));
    assert w.Holds(f, x) ==> !w.Holds(g, x);
  }

  /** The number issued was held by its holder alone, or is above everything issued before. */
  lemma {:induction false} StepSpends(w: World, w': World, h: Holder, n: int)
    requires BlocksReserved(w) && BlocksApart(w) && Stepped(w, w', h, n) && n != 0
    ensures Spent(w', Issue(h, w.Key(h), n))
  {
    assert 0 <= w.BlockOf(h).current <= w.BlockOf(h).max <= At(w.counters, w.Key(h));
    forall g: Holder | w'.Key(g) == w.Key(h)
      ensures !w'.Holds(g, n)
    {
      if g != h {
        NotBoth(w, w', h, n, h, g, n);
      }
    }
  }

  lemma {:induction false} StaysSpent(w: World, w': World, h: Holder, n: int, x: Issue)
    requires BlocksReserved(w) && Stepped(w, w', h, n) && Spent(w, x)
    ensures Spent(w', x)
    ensures n != 0 && x.key == w.Key(h) ==> x.number != n
    ensures n != 0 && x.holder == h ==> x.number < n
  {
    assert w'.Key(x.holder) == w.Key(x.holder);
    assert 0 <= w.BlockOf(h).current <= w.BlockOf(h).max <= At(w.counters, w.Key(h));
    forall g: Holder | w'.Key(g) == x.key
      ensures !w'.Holds(g, x.number)
    {
      assert w.Key(g) == x.key;
    }
    if x.key == w.Key(h) {
      assert !w.Holds(h, x.number);
    }
  }

  /** Every step of every sequencer keeps the numbers unique and increasing. */
  lemma {:induction false} StepKeeps(w: World, w': World, h: Holder, n: int, log: seq<Issue>)
    requires Inv(w, log) && Stepped(w, w', h, n)
    ensures Inv(w', log + [Issue(h, w.Key(h), n)])
  {
    hide Stepped, Spent, BlocksReserved, BlocksApart;
    StepReserved(w, w', h, n);
    StepApart(w, w', h, n);
    if n != 0 {
      StepSpends(w, w', h, n);
    }
    forall i | 0 <= i < |log| && log[i].number != 0
      ensures Spent(w', log[i])
      ensures n != 0 && log[i].key == w.Key(h) ==> log[i].number != n
      ensures n != 0 && log[i].holder == h ==> log[i].number < n
    {
      StaysSpent(w, w', h, n, log[i]);
    }
  }

  // ---------- Runs ----------

  /** One call on values: the next number of the holder's block, or of a block just reserved, or 0. */
  function NextIn(w: World, h: Holder, fault: Fault): (World, int)
  {
    var was, c := w.BlockOf(h), At(w.counters, w.Key(h));
    if was.current < was.max then
      (w.(blocks := w.blocks[h := Block(was.current + 1, was.max)]), was.current + 1)
    else
      var counters := Incremented(w.counters, w.Key(h), BLOCK_SIZE, fault);
      if fault == Answered && c + BLOCK_SIZE < TWO_63
      then (w.(counters := counters, blocks := w.blocks[h := Block(c + 1, c + BLOCK_SIZE)]), c + 1)
      else (w.(counters := counters), 0)
  }

  lemma {:induction false} NextStepped(w: World, h: Holder, fault: Fault)
    ensures Stepped(w, NextIn(w, h, fault).0, h, NextIn(w, h, fault).1)
  {
  }

  /** The block is used up, and the INCRBY is lost or would leave int64. */
  predicate NoneLeft(w: World, h: Holder, fault: Fault)
  {
    w.BlockOf(h).current == w.BlockOf(h).max && (fault != Answered || At(w.counters, w.Key(h)) + BLOCK_SIZE >= TWO_63)
  }

  /** That is exactly when a call returns 0. */
  lemma {:induction false} ZeroIff(w: World, h: Holder, fault: Fault)
    requires BlocksReserved(w)
    ensures NextIn(w, h, fault).1 >= 0 && (NextIn(w, h, fault).1 == 0 <==> NoneLeft(w, h, fault))
  {
    assert 0 <= w.BlockOf(h).current <= w.BlockOf(h).max <= At(w.counters, w.Key(h));
  }

  function HolderOf(call: Call): Holder
  {
    Holder(call.instance, call.symbol)
  }

  /** Any calls, in the order in which they take the locks: the world after them, and what each returned. */
  function RunCalls(w: World, calls: seq<Call>): (World, seq<Issue>)
  {
    if calls == [] then (w, [])
    else
      var (before, log) := RunCalls(w, calls[..|calls| - 1]);
      var call := calls[|calls| - 1];
      var (after, n) := NextIn(before, HolderOf(call), call.fault);
      (after, log + [Issue(HolderOf(call), before.Key(HolderOf(call)), n)])
  }

  /**
   For any interleaving and any failures, from unused blocks and counters: no number is returned
   twice under a key, each sequencer's numbers for a symbol increase, and what is reserved stays apart.
   */
  lemma {:induction false} AnyInterleaving(w: World, calls: seq<Call>)
    requires w.blocks == map[] && forall k :: At(w.counters, k) >= 0
    ensures var (after, log) := RunCalls(w, calls);
            |log| == |calls| && Inv(after, log) && Unique(log) && after.prefixes == w.prefixes
  {
    hide Inv, Stepped, NextIn;
    if calls == [] {
      Fresh(w);
    } else {
      var n := |calls| - 1;
      AnyInterleaving(w, calls[..n]);
      var (before, log) := RunCalls(w, calls[..n]);
      var h := HolderOf(calls[n]);
      var (after, number) := NextIn(before, h, calls[n].fault);
      NextStepped(before, h, calls[n].fault);
      StepKeeps(before, after, h, number, log);
      SamePrefixes(before, after, h, number);
      InvUnique(after, log + [Issue(h, before.Key(h), number)]);
    }
  }

  /** What a call returned, in the world it saw. */
  ghost predicate IssuedIn(x: Issue, w: World, call: Call)
  {
    && x.holder == HolderOf(call) && x.key == w.Key(HolderOf(call))
    && x.number >= 0 && (x.number == 0 <==> NoneLeft(w, HolderOf(call), call.fault))
  }

  lemma {:induction false} IssuedAt(w: World, calls: seq<Call>, i: nat)
    requires w.blocks == map[] && (forall k :: At(w.counters, k) >= 0) && i < |calls|
    ensures |RunCalls(w, calls).1| == |calls| && IssuedIn(RunCalls(w, calls).1[i], RunCalls(w, calls[..i]).0, calls[i])
  {
    hide Inv, NextIn, IssuedIn;
    var n := |calls| - 1;
    AnyInterleaving(w, calls[..n]);
    if i == n {
      var (before, log) := RunCalls(w, calls[..n]);
      InvUnique(before, log);
      OneIssued(before, calls[n]);
    } else {
      IssuedAt(w, calls[..n], i);
      assert calls[..n][..i] == calls[..i];
    }
  }

  lemma {:induction false} OneIssued(w: World, call: Call)
    requires BlocksReserved(w)
    ensures IssuedIn(Issue(HolderOf(call), w.Key(HolderOf(call)), NextIn(w, HolderOf(call), call.fault).1), w, call)
  {
    ZeroIff(w, HolderOf(call), call.fault);
  }

  lemma {:induction false} InvUnique(w: World, log: seq<Issue>)
    requires Inv(w, log)
    ensures Unique(log) && BlocksReserved(w)
  {
  }

  lemma {:induction false} SamePrefixes(w: World, w': World, h: Holder, n: int)
    requires Stepped(w, w', h, n)
    ensures w'.prefixes == w.prefixes
  {
  }

  // ---------- The sequencers themselves ----------

  /** The values agree with the sequencers and the counters. */
  ghost predicate Describes(w: World, redis: Redis, fleet: seq<RedisSequencer>)
    reads redis, fleet
  {
    && w.counters == redis.counters && |w.prefixes| == |fleet|
    && (forall i :: 0 <= i < |fleet| ==> w.prefixes[i] == fleet[i].prefix)
    && (forall i: nat, s :: i < |fleet| ==> w.BlockOf(Holder(i, s)) == fleet[i].BlockOf(s))
  }

  /** A call on one of the sequencers is that call on values. */
  method CallNext(redis: Redis, fleet: seq<RedisSequencer>, call: Call, ghost w: World) returns (n: int)
    requires forall i, j :: 0 <= i < j < |fleet| ==> fleet[i] != fleet[j]
    requires call.instance < |fleet| && Describes(w, redis, fleet)
    modifies redis, fleet[call.instance]
    ensures var (w', n') := NextIn(w, HolderOf(call), call.fault); n == n' && Describes(w', redis, fleet)
  {
    var it := fleet[call.instance];
    ghost var h := HolderOf(call);
    ghost var (w', n') := NextIn(w, h, call.fault);
    assert w.BlockOf(h) == it.BlockOf(call.symbol) && w.Key(h) == it.prefix + call.symbol;
    n := it.Next(redis, call.symbol, call.fault);
    forall i: nat, s | i < |fleet|
      ensures w'.BlockOf(Holder(i, s)) == fleet[i].BlockOf(s)
    {
      assert w.BlockOf(Holder(i, s)) == old(fleet[i].BlockOf(s));
    }
  }

  /** Where a fleet of new sequencers starts. */
  ghost function Unused(redis: Redis, fleet: seq<RedisSequencer>): World
    reads redis
  {
    World(redis.counters, map[], seq(|fleet|, i requires 0 <= i < |fleet| => fleet[i].prefix))
  }

  /**
   Any calls on any number of fresh sequencers sharing one Redis, in any interleaving and with any
   failures, return what they do on values; so no number is returned twice under a key, and each
   sequencer's numbers for a symbol increase.
   */
  method Interleaved(redis: Redis, fleet: seq<RedisSequencer>, calls: seq<Call>) returns (log: seq<Issue>)
    requires forall i, j :: 0 <= i < j < |fleet| ==> fleet[i] != fleet[j]
    requires forall i :: 0 <= i < |fleet| ==> fleet[i].blocks == map[]
    requires forall i :: 0 <= i < |calls| ==> calls[i].instance < |fleet|
    requires forall k :: At(redis.counters, k) >= 0
    modifies redis, fleet
    ensures |log| == |calls| && log == RunCalls(old(Unused(redis, fleet)), calls).1
    ensures forall i :: 0 <= i < |log| ==> IssuedIn(log[i], RunCalls(old(Unused(redis, fleet)), calls[..i]).0, calls[i])
    ensures Unique(log)
  {
    hide NextIn, Unique, IssuedIn;
    log := [];
    ghost var start := Unused(redis, fleet);
    for k := 0 to |calls|
      invariant Describes(RunCalls(start, calls[..k]).0, redis, fleet) && log == RunCalls(start, calls[..k]).1
    {
      assert calls[..k + 1][..k] == calls[..k];
      ghost var w := RunCalls(start, calls[..k]).0;
      var n := CallNext(redis, fleet, calls[k], w);
      var key := fleet[calls[k].instance].prefix + calls[k].symbol;
      assert key == w.Key(HolderOf(calls[k]));
      log := log + [Issue(HolderOf(calls[k]), key, n)];
    }
    assert calls[..|calls|] == calls;
    AnyInterleaving(start, calls);
    forall i | 0 <= i < |log|
      ensures IssuedIn(log[i], RunCalls(start, calls[..i]).0, calls[i])
    {
      IssuedAt(start, calls, i);
    }
  }

  lemma {:induction false} Fresh(w: World)
    requires w.blocks == map[] && forall k :: At(w.counters, k) >= 0
    ensures Inv(w, []) && Unique([])
  {
  }
}
