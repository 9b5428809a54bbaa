/**
 Snapshot recovery (internal/snapshot/snapshot.go): load the last checkpoint, page through
 the event log after its cursor (internal/eventlog/postgres.go), then apply the live events
 buffered meanwhile.
 */
module Recovery {
  import opened Checkpoints
  import opened Collections

  datatype Event = Event(symbol: string, data: string)

  /** The composite cursor (timestamp, event id). Timestamp 0 stands for Go's zero time. */
  datatype Key = Key(timestamp: int, id: int)

  /** A stored row; unreadable rows fail to reconstruct and are skipped. */
  datatype Row = Row(key: Key, readable: bool, event: Event)

  predicate Less(a: Key, b: Key)
  {
    a.timestamp < b.timestamp || (a.timestamp == b.timestamp && a.id < b.id)
  }

  /** The zero cursor puts no condition on the query. */
  predicate After(cursor: Key, k: Key)
  {
    (cursor.timestamp == 0 && cursor.id <= 0) || Less(cursor, k)
  }

  /** An event log in key order; event ids are serial numbers from 1. */
  ghost predicate Ordered(log: seq<Row>)
  {
    && (forall i :: 0 <= i < |log| ==> log[i].key.id > 0)
    && (forall i, j :: 0 <= i < j < |log| ==> Less(log[i].key, log[j].key))
  }

  /** Rows come in order of time, and of id where the times are equal. */
  lemma {:induction false} OrderedIff(log: seq<Row>)
    ensures Ordered(log) <==>
            && (forall i :: 0 <= i < |log| ==> log[i].key.id > 0)
            && (forall i, j :: 0 <= i < j < |log| ==> log[i].key.timestamp <= log[j].key.timestamp)
            && (forall i, j :: 0 <= i < j < |log| && log[i].key.timestamp == log[j].key.timestamp ==> log[i].key.id < log[j].key.id)
  {
    assert Ordered(log) ==> forall i, j :: 0 <= i < j < |log| ==> Less(log[i].key, log[j].key);
  }

  // ---------- Last event per symbol ----------

  function Apply(m: map<string, Event>, r: Row): map<string, Event>
  {
    if r.readable then m[r.event.symbol := r.event] else m
  }

  function ApplyAll(m: map<string, Event>, rows: seq<Row>): map<string, Event>
  {
    if rows == [] then m else Apply(ApplyAll(m, rows[..|rows| - 1]), rows[|rows| - 1])
  }

  /** The last readable event for a symbol, looking back from the end. */
  function LastFor(rows: seq<Row>, symbol: string): Option<Event>
  {
    if rows == [] then None
    else
      var r := rows[|rows| - 1];
      if r.readable && r.event.symbol == symbol then Some(r.event) else LastFor(rows[..|rows| - 1], symbol)
  }

  /** The snapshot of a log: the last readable event of every symbol that has one. */
  ghost predicate Latest(m: map<string, Event>, rows: seq<Row>)
  {
    forall s :: if LastFor(rows, s).Some? then s in m && m[s] == LastFor(rows, s).value else s !in m
  }

  /** Row i is readable and the last such of its symbol. */
  ghost predicate LastRow(rows: seq<Row>, i: nat)
  {
    i < |rows| && rows[i].readable && forall j :: i < j < |rows| && rows[j].readable ==> rows[j].event.symbol != rows[i].event.symbol
  }

  lemma {:induction false} LastForIs(rows: seq<Row>, s: string)
    ensures forall i :: 0 <= i < |rows| && LastRow(rows, i) && rows[i].event.symbol == s ==> LastFor(rows, s) == Some(rows[i].event)
    ensures LastFor(rows, s).Some? ==> exists i :: 0 <= i < |rows| && LastRow(rows, i) && rows[i].event.symbol == s
  {
    if rows == [] {
    } else {
      var n := |rows| - 1;
      LastForIs(rows[..n], s);
      if !(rows[n].readable && rows[n].event.symbol == s) {
        forall i | 0 <= i < n && rows[i].event.symbol == s
          ensures LastRow(rows, i) <==> LastRow(rows[..n], i)
        {
        }
      } else {
        assert LastRow(rows, n);
      }
    }
  }

  /** A snapshot holds the event of the last readable row of every symbol, and no other symbol. */
  lemma {:induction false} LatestIff(m: map<string, Event>, rows: seq<Row>)
    ensures Latest(m, rows) <==>
            && (forall i :: 0 <= i < |rows| && LastRow(rows, i) ==> rows[i].event.symbol in m && m[rows[i].event.symbol] == rows[i].event)
            && (forall s :: s in m ==> exists i :: 0 <= i < |rows| && LastRow(rows, i) && rows[i].event.symbol == s)
  {
    hide LastRow, LastFor;
    forall s
      ensures forall i :: 0 <= i < |rows| && LastRow(rows, i) && rows[i].event.symbol == s ==> LastFor(rows, s) == Some(rows[i].event)
      ensures LastFor(rows, s).Some? ==> exists i :: 0 <= i < |rows| && LastRow(rows, i) && rows[i].event.symbol == s
    {
      LastForIs(rows, s);
    }
  }

  lemma {:induction false} ApplyAllAt(m: map<string, Event>, rows: seq<Row>, s: string)
    ensures LastFor(rows, s).Some? ==> s in ApplyAll(m, rows) && ApplyAll(m, rows)[s] == LastFor(rows, s).value
    ensures LastFor(rows, s).None? ==> (s in ApplyAll(m, rows) <==> s in m)
    ensures LastFor(rows, s).None? && s in m ==> ApplyAll(m, rows)[s] == m[s]
  {
    if rows == [] {
    } else {
      ApplyAllAt(m, rows[..|rows| - 1], s);
    }
  }

  lemma {:induction false} LastForAppend(a: seq<Row>, b: seq<Row>, s: string)
    ensures LastFor(a + b, s) == if LastFor(b, s).Some? then LastFor(b, s) else LastFor(a, s)
  {
    if b == [] {
      assert a + b == a;
    } else {
      assert (a + b)[..|a + b| - 1] == a + b[..|b| - 1];
      LastForAppend(a, b[..|b| - 1], s);
    }
  }

  lemma {:induction false} LatestDetermined(m: map<string, Event>, m': map<string, Event>, rows: seq<Row>)
    requires Latest(m, rows) && Latest(m', rows)
    ensures m == m'
  {
    forall s
      ensures s in m <==> s in m'
      ensures s in m && s in m' ==> m[s] == m'[s]
    {
      assert LastFor(rows, s) == LastFor(rows, s);
    }
  }

  /**
   Replaying from the cursor on top of a snapshot of any prefix that reaches at least to the
   cursor gives the snapshot of the whole log, although the overlap is applied twice.
   */
  lemma {:induction false} OverlapHarmless(m: map<string, Event>, log: seq<Row>, q: nat, p: nat)
    requires q <= p <= |log| && Latest(m, log[..p])
    ensures Latest(ApplyAll(m, log[q..]), log)
  {
    forall s
      ensures var m' := ApplyAll(m, log[q..]);
              if LastFor(log, s).Some? then s in m' && m'[s] == LastFor(log, s).value else s !in m'
    {
      ApplyAllAt(m, log[q..], s);
      assert log == log[..q] + log[q..] && log[..p] == log[..q] + log[q..p] && log[q..] == log[q..p] + log[p..];
      LastForAppend(log[..q], log[q..], s);
      LastForAppend(log[..q], log[q..p], s);
      LastForAppend(log[q..p], log[p..], s);
    }
  }

  // ---------- Cursor paging ----------

  /** The rows of the log that a query with this cursor selects. */
  function Selected(log: seq<Row>, cursor: Key): seq<Row>
  {
    if log == [] then []
    else (if After(cursor, log[0].key) then [log[0]] else []) + Selected(log[1..], cursor)
  }

  /** Row q is the first one after the cursor. */
  ghost predicate Splits(log: seq<Row>, cursor: Key, q: nat)
  {
    q <= |log| && forall i :: 0 <= i < |log| ==> (After(cursor, log[i].key) <==> i >= q)
  }

  lemma {:induction false} SelectedIsSuffix(log: seq<Row>, cursor: Key, q: nat)
    requires Splits(log, cursor, q)
    ensures Selected(log, cursor) == log[q..]
  {
    if log == [] {
    } else {
      SelectedIsSuffix(log[1..], cursor, if q == 0 then 0 else q - 1);
    }
  }

  lemma {:induction false} SplitsAtRow(log: seq<Row>, i: nat)
    requires Ordered(log) && i < |log|
    ensures Splits(log, log[i].key, i + 1)
  {
  }

  /** Without a checkpoint every row is selected. */
  lemma {:induction false} SelectsAll(log: seq<Row>)
    ensures Selected(log, Key(0, 0)) == log
  {
    SelectedIsSuffix(log, Key(0, 0), 0);
  }

  datatype Page = Page(rows: seq<Row>, next: Option<Key>, hasMore: bool)

  /** QueryEvents: fetches one row more than asked to learn whether there are more. */
  function QueryEvents(log: seq<Row>, cursor: Key, limit: nat): (page: Page)
    requires 0 < limit <= 1000
    ensures page.hasMore <==> |Selected(log, cursor)| > limit
    ensures page.rows <= Selected(log, cursor)
    ensures page.hasMore ==> |page.rows| == limit && page.next == Some(page.rows[limit - 1].key)
    ensures !page.hasMore ==> page.rows == Selected(log, cursor) && page.next == None
  {
    var all := Selected(log, cursor);
    var fetched := if |all| <= limit + 1 then all else all[..limit + 1];
    if |fetched| > limit then Page(fetched[..limit], Some(fetched[limit - 1].key), true)
    else Page(fetched, None, false)
  }

  // ---------- The service ----------

  const BUFFER_CAPACITY := 10000
  const PAGE_LIMIT := 1000

  datatype Saved = Saved(cursor: Key, symbols: map<string, Event>)

  function Overlay(m: map<string, Event>, evs: seq<Event>): map<string, Event>
    decreases evs
  {
    if evs == [] then m else Overlay(m[evs[0].symbol := evs[0]], evs[1..])
  }

  /** Event k is the last of its symbol. */
  ghost predicate LastEvent(evs: seq<Event>, k: nat)
  {
    k < |evs| && forall j :: k < j < |evs| ==> evs[j].symbol != evs[k].symbol
  }

  /** The last event of every symbol has been applied, and a symbol without one is as it was. */
  ghost predicate Overlaid(now: map<string, Event>, m: map<string, Event>, evs: seq<Event>)
  {
    && (forall k :: 0 <= k < |evs| && LastEvent(evs, k) ==> evs[k].symbol in now && now[evs[k].symbol] == evs[k])
    && (forall s :: (forall k :: 0 <= k < |evs| ==> evs[k].symbol != s) ==> (s in now <==> s in m) && (s in m ==> now[s] == m[s]))
  }

  lemma {:induction false} OverlayLast(m: map<string, Event>, evs: seq<Event>, k: nat)
    requires LastEvent(evs, k)
    ensures evs[k].symbol in Overlay(m, evs) && Overlay(m, evs)[evs[k].symbol] == evs[k]
    decreases evs
  {
    var m', rest := m[evs[0].symbol := evs[0]], evs[1..];
    if k == 0 {
      OverlayOther(m', rest, evs[0].symbol);
    } else {
      OverlayLast(m', rest, k - 1);
    }
  }

  lemma {:induction false} OverlayOther(m: map<string, Event>, evs: seq<Event>, s: string)
    requires forall k :: 0 <= k < |evs| ==> evs[k].symbol != s
    ensures (s in Overlay(m, evs) <==> s in m) && (s in m ==> Overlay(m, evs)[s] == m[s])
    decreases evs
  {
    if evs == [] {
    } else {
      OverlayOther(m[evs[0].symbol := evs[0]], evs[1..], s);
    }
  }

  /** Applying events in order of arrival leaves the last of every symbol. */
  lemma {:induction false} OverlayIs(m: map<string, Event>, evs: seq<Event>)
    ensures Overlaid(Overlay(m, evs), m, evs)
  {
    hide LastEvent, Overlay;
    forall k | 0 <= k < |evs| && LastEvent(evs, k)
      ensures evs[k].symbol in Overlay(m, evs) && Overlay(m, evs)[evs[k].symbol] == evs[k]
    {
      OverlayLast(m, evs, k);
    }
    forall s | forall k :: 0 <= k < |evs| ==> evs[k].symbol != s
      ensures (s in Overlay(m, evs) <==> s in m) && (s in m ==> Overlay(m, evs)[s] == m[s])
    {
      OverlayOther(m, evs, s);
    }
  }

  // ---------- Live events during the drain ----------

  /** While the buffer is drained, live events are no longer buffered but applied at once. */
  datatype DrainStep = TakeOne | Live(ev: Event)

  /** The snapshot and the buffer after any interleaving of the two. */
  function Drain(m: map<string, Event>, buf: seq<Event>, steps: seq<DrainStep>): (map<string, Event>, seq<Event>)
    decreases |steps|
  {
    if steps == [] then (m, buf)
    else
      match steps[0]
      case TakeOne => if buf == [] then Drain(m, buf, steps[1..]) else Drain(m[buf[0].symbol := buf[0]], buf[1..], steps[1..])
      case Live(ev) => Drain(m[ev.symbol := ev], buf, steps[1..])
  }

  lemma {:induction false} DrainAppend(m: map<string, Event>, buf: seq<Event>, a: seq<DrainStep>, b: seq<DrainStep>)
    ensures Drain(m, buf, a + b) == Drain(Drain(m, buf, a).0, Drain(m, buf, a).1, b)
    decreases |a|
  {
    if a == [] {
      assert a + b == b;
    } else {
      assert (a + b)[1..] == a[1..] + b;
      match a[0]
      case TakeOne =>
        if buf == [] {
          DrainAppend(m, buf, a[1..], b);
        } else {
          DrainAppend(m[buf[0].symbol := buf[0]], buf[1..], a[1..], b);
        }
      case Live(ev) => DrainAppend(m[ev.symbol := ev], buf, a[1..], b);
    }
  }

  /** A symbol without live events ends as if the buffer had been drained at once. */
  lemma {:induction false} DrainUndisturbed(m: map<string, Event>, buf: seq<Event>, steps: seq<DrainStep>, s: string)
    requires Drain(m, buf, steps).1 == [] && forall i :: 0 <= i < |steps| && steps[i].Live? ==> steps[i].ev.symbol != s
    ensures var now, all := Drain(m, buf, steps).0, Overlay(m, buf);
            (s in now <==> s in all) && (s in now ==> now[s] == all[s])
    decreases |steps|
  {
    if steps == [] {
    } else {
      match steps[0]
      case TakeOne =>
        if buf == [] {
          DrainUndisturbed(m, buf, steps[1..], s);
        } else {
          DrainUndisturbed(m[buf[0].symbol := buf[0]], buf[1..], steps[1..], s);
        }
      case Live(ev) =>
        DrainUndisturbed(m[ev.symbol := ev], buf, steps[1..], s);
        OverlaySame(m, m[ev.symbol := ev], buf, s);
    }
  }

  lemma {:induction false} OverlaySame(m: map<string, Event>, m': map<string, Event>, evs: seq<Event>, s: string)
    requires (s in m <==> s in m') && (s in m ==> m[s] == m'[s])
    ensures var a, b := Overlay(m, evs), Overlay(m', evs); (s in a <==> s in b) && (s in a ==> a[s] == b[s])
    decreases evs
  {
    if evs == [] {
    } else {
      OverlaySame(m[evs[0].symbol := evs[0]], m'[evs[0].symbol := evs[0]], evs[1..], s);
    }
  }

  /**
   The last live event of a symbol that arrives during the drain is what remains of it exactly if
   the buffer then holds no other event last for that symbol; one that is still in the buffer is
   older, and overwrites it.
   */
  lemma {:induction false} LiveStaysIff(m: map<string, Event>, buf: seq<Event>, pre: seq<DrainStep>, ev: Event, post: seq<DrainStep>)
    requires Drain(m, buf, pre + ([Live(ev)] + post)).1 == []
    requires forall i :: 0 <= i < |post| && post[i].Live? ==> post[i].ev.symbol != ev.symbol
    ensures var now, waiting := Drain(m, buf, pre + ([Live(ev)] + post)).0, Drain(m, buf, pre).1;
            && ev.symbol in now
            && (now[ev.symbol] == ev <==> forall k :: 0 <= k < |waiting| && LastEvent(waiting, k) && waiting[k].symbol == ev.symbol ==> waiting[k] == ev)
  {
    var (m1, waiting) := Drain(m, buf, pre);
    DrainAppend(m, buf, pre, [Live(ev)] + post);
    assert ([Live(ev)] + post)[1..] == post;
    var m2, s := m1[ev.symbol := ev], ev.symbol;
    DrainUndisturbed(m2, waiting, post, s);
    hide Drain, Overlay;
    if k :| 0 <= k < |waiting| && waiting[k].symbol == s {
      var last := LastOfSymbol(waiting, s, k);
      OverlayLast(m2, waiting, last);
      assert forall j :: 0 <= j < |waiting| && LastEvent(waiting, j) && waiting[j].symbol == s ==> j == last;
    } else {
      OverlayOther(m2, waiting, s);
    }
  }

  lemma {:induction false} LastOfSymbol(evs: seq<Event>, s: string, k: nat) returns (last: nat)
    requires k < |evs| && evs[k].symbol == s
    ensures LastEvent(evs, last) && evs[last].symbol == s
    decreases |evs| - k
  {
    if j :| k < j < |evs| && evs[j].symbol == s {
      last := LastOfSymbol(evs, s, j);
    } else {
      last := k;
    }
  }

  /** One event in the buffer and a newer one live: the older one remains. */
  lemma {:induction false} DrainRace(older: Event, newer: Event)
    requires older.symbol == newer.symbol && older != newer
    ensures Drain(map[], [older], [Live(newer), TakeOne]) == (map[older.symbol := older], [])
  {
    var m: map<string, Event> := map[newer.symbol := newer];
    assert [Live(newer), TakeOne][1..] == [TakeOne] && [TakeOne][1..] == [] && [older][1..] == [];
    assert Drain(m, [older], [TakeOne]) == Drain(m[older.symbol := older], [], []);
    assert m[older.symbol := older] == map[older.symbol := older];
  }

  /** The live events of the first n rounds, in order of arrival. */
  function Arrived(live: nat -> seq<Event>, n: nat): seq<Event>
  {
    if n == 0 then [] else Arrived(live, n - 1) + live(n - 1)
  }

  lemma {:induction false} ArrivedNext(live: nat -> seq<Event>, n: nat)
    ensures Arrived(live, n + 1) == Arrived(live, n) + live(n)
  {
  }

  lemma {:induction false} NothingArrived(live: nat -> seq<Event>)
    ensures Arrived(live, 0) == []
  {
  }

  /**
   How a replay of `left` rows ends, given the outcomes of its queries from the n-th on and the
   failures in a row so far: whether it succeeds, and how many queries were made in all.
   */
  function Ends(outcome: nat -> Outcome, n: nat, retries: nat, maxRetries: nat, left: nat): (r: (bool, nat))
    decreases left, maxRetries + 1 - retries
    ensures r.1 > n
  {
    match outcome(n)
    case Cancelled => (false, n + 1)
    case QueryError => if retries + 1 > maxRetries then (false, n + 1) else Ends(outcome, n + 1, retries + 1, maxRetries, left)
    case Answered => if left <= PAGE_LIMIT then (true, n + 1) else Ends(outcome, n + 1, 0, maxRetries, left - PAGE_LIMIT)
  }

  lemma {:induction false} EndsNext(outcome: nat -> Outcome, n: nat, retries: nat, maxRetries: nat, left: nat)
    ensures Ends(outcome, n, retries, maxRetries, left) ==
            match outcome(n)
            case Cancelled => (false, n + 1)
            case QueryError => if retries + 1 > maxRetries then (false, n + 1) else Ends(outcome, n + 1, retries + 1, maxRetries, left)
            case Answered => if left <= PAGE_LIMIT then (true, n + 1) else Ends(outcome, n + 1, 0, maxRetries, left - PAGE_LIMIT)
  {
  }

  /** More than maxRetries failures in a row, the last of them at query i. */
  ghost predicate GaveUpAt(outcome: nat -> Outcome, maxRetries: nat, i: nat)
  {
    i >= maxRetries && forall k: nat :: i - maxRetries <= k <= i ==> outcome(k) == QueryError
  }

  /** The queries just before the n-th failed, `retries` of them in a row. */
  ghost predicate Streak(outcome: nat -> Outcome, n: nat, retries: nat)
  {
    && retries <= n && (forall k: nat :: n - retries <= k < n ==> outcome(k) == QueryError)
    && (n > retries ==> outcome(n - retries - 1) == Answered)
  }

  lemma {:induction false} EndsFrom(outcome: nat -> Outcome, n: nat, retries: nat, maxRetries: nat, left: nat)
    requires Streak(outcome, n, retries) && retries <= maxRetries
    ensures var (ok, rounds) := Ends(outcome, n, retries, maxRetries, left);
            ok <==> forall i: nat :: n <= i < rounds ==> outcome(i) != Cancelled && !GaveUpAt(outcome, maxRetries, i)
    decreases left, maxRetries + 1 - retries
  {
    var (ok, rounds) := Ends(outcome, n, retries, maxRetries, left);
    NotYet(outcome, n, retries, maxRetries);
    match outcome(n)
    case Cancelled =>
    case QueryError =>
      if retries + 1 > maxRetries {
        assert GaveUpAt(outcome, maxRetries, n);
      } else {
        EndsFrom(outcome, n + 1, retries + 1, maxRetries, left);
      }
    case Answered =>
      if left > PAGE_LIMIT {
        EndsFrom(outcome, n + 1, 0, maxRetries, left - PAGE_LIMIT);
      }
  }

  lemma {:induction false} NotYet(outcome: nat -> Outcome, n: nat, retries: nat, maxRetries: nat)
    requires Streak(outcome, n, retries) && retries <= maxRetries
    ensures GaveUpAt(outcome, maxRetries, n) <==> outcome(n) == QueryError && retries == maxRetries
  {
    if retries < maxRetries && n > retries {
      assert outcome(n - retries - 1) == Answered;
    }
  }

  /** A replay succeeds exactly when no query it makes is cancelled or fails once too often in a row. */
  lemma {:induction false} EndsIff(outcome: nat -> Outcome, maxRetries: nat, left: nat)
    ensures var (ok, rounds) := Ends(outcome, 0, 0, maxRetries, left);
            ok <==> forall i: nat :: i < rounds ==> outcome(i) != Cancelled && !GaveUpAt(outcome, maxRetries, i)
  {
    EndsFrom(outcome, 0, 0, maxRetries, left);
  }

  class Service {
    var snapshots: map<string, Event>
    var lastCursor: Key
    var buffering: bool
    var liveBuffer: seq<Event>

    constructor ()
      ensures snapshots == map[] && lastCursor == Key(0, 0) && !buffering && liveBuffer == []
    {
      snapshots, lastCursor, buffering, liveBuffer := map[], Key(0, 0), false, [];
    }

    /** A live event: buffered during recovery, evicting the oldest when full, else applied. */
    method Update(ev: Event)
      requires |liveBuffer| <= BUFFER_CAPACITY
      modifies this
      ensures buffering == old(buffering) && lastCursor == old(lastCursor)
      ensures buffering ==> liveBuffer == Newest(old(liveBuffer) + [ev], BUFFER_CAPACITY) && snapshots == old(snapshots)
      ensures !buffering ==> liveBuffer == old(liveBuffer) && snapshots == old(snapshots)[ev.symbol := ev]
    {
      if buffering {
        if |liveBuffer| >= BUFFER_CAPACITY {
          liveBuffer := liveBuffer[1..];
        }
        liveBuffer := liveBuffer + [ev];
      } else {
        snapshots := snapshots[ev.symbol := ev];
      }
    }

    method UpdateAll(evs: seq<Event>, ghost past: seq<Event>)
      requires buffering && liveBuffer == Newest(past, BUFFER_CAPACITY)
      modifies this
      ensures buffering && lastCursor == old(lastCursor) && snapshots == old(snapshots)
      ensures liveBuffer == Newest(past + evs, BUFFER_CAPACITY)
    {
      for i := 0 to |evs|
        invariant buffering && lastCursor == old(lastCursor) && snapshots == old(snapshots)
        invariant liveBuffer == Newest(past + evs[..i], BUFFER_CAPACITY)
      {
        NewestAppend(past + evs[..i], evs[i], BUFFER_CAPACITY);
        assert past + evs[..i + 1] == past + evs[..i] + [evs[i]];
        Update(evs[i]);
      }
      assert evs[..|evs|] == evs;
    }

    method LoadCheckpoint(disk: Disk<Saved>)
      modifies this
      ensures buffering == old(buffering) && liveBuffer == old(liveBuffer)
      ensures match Load(disk)
              case Some(cp) => snapshots == cp.contents.symbols && lastCursor == cp.contents.cursor
              case None => snapshots == old(snapshots) && lastCursor == old(lastCursor)
    {
      match Load(disk)
      case Some(cp) => snapshots, lastCursor := cp.contents.symbols, cp.contents.cursor;
      case None =>
    }

    method ApplyRows(rows: seq<Row>)
      modifies this`snapshots
      ensures snapshots == ApplyAll(old(snapshots), rows)
    {
      for i := 0 to |rows|
        invariant snapshots == ApplyAll(old(snapshots), rows[..i])
      {
        assert rows[..i + 1][..i] == rows[..i];
        if rows[i].readable {
          snapshots := snapshots[rows[i].event.symbol := rows[i].event];
        }
      }
      assert rows[..|rows|] == rows;
    }

    /** Stops buffering and applies the buffered events in order of arrival. */
    method StopBuffering()
      requires |liveBuffer| <= BUFFER_CAPACITY
      modifies this
      ensures !buffering && liveBuffer == [] && snapshots == Overlay(old(snapshots), old(liveBuffer))
      ensures Overlaid(snapshots, old(snapshots), old(liveBuffer))
    {
      hide Overlaid;
      buffering := false;
      while |liveBuffer| > 0
        invariant !buffering && |liveBuffer| <= BUFFER_CAPACITY
        invariant Overlay(snapshots, liveBuffer) == Overlay(old(snapshots), old(liveBuffer))
      {
        var ev := liveBuffer[0];
        liveBuffer := liveBuffer[1..];
        Update(ev);
      }
      OverlayIs(old(snapshots), old(liveBuffer));
    }

    /** Fetches and applies one page, moving the cursor when more follow. */
    method OnePage(log: seq<Row>, cursor: Key, ghost at: nat) returns (next: Key, more: bool, ghost to: nat)
      requires Ordered(log) && Splits(log, cursor, at)
      modifies this`snapshots, this`lastCursor
      ensures at <= to <= |log| && Splits(log, next, if more then to else at)
      ensures if more then to > at else to == |log|
      ensures snapshots == ApplyAll(old(snapshots), log[at..to])
      ensures more == (|log| - at > PAGE_LIMIT) && (more ==> to == at + PAGE_LIMIT)
      ensures next == (if more then log[to - 1].key else cursor)
      ensures lastCursor == if more then next else old(lastCursor)
    {
      SelectedIsSuffix(log, cursor, at);
      var page := QueryEvents(log, cursor, PAGE_LIMIT);
      to := at + |page.rows|;
      assert page.rows == log[at..to];
      ApplyRows(page.rows);
      next, more := cursor, page.hasMore;
      if page.next.Some? {
        SplitsAtRow(log, to - 1);
        next := page.next.value;
        lastCursor := next;
      }
    }

    /**
     Replays the log after the cursor, page by page, while live events keep arriving into the
     buffer. `outcome` says how the n-th query ends, `live` what arrives before it.
     */
    method ReplayLog(log: seq<Row>, live: nat -> seq<Event>, outcome: nat -> Outcome, maxRetries: nat, ghost q: nat, ghost p: nat)
      returns (ok: bool, rounds: nat, ghost visited: seq<Row>)
      requires buffering && liveBuffer == [] && Ordered(log)
      requires Splits(log, lastCursor, q) && q <= p <= |log| && Latest(snapshots, log[..p])
      modifies this
      ensures buffering && liveBuffer == Newest(Arrived(live, rounds), BUFFER_CAPACITY)
      ensures ok ==> visited == log[q..] && Latest(snapshots, log)
      ensures (ok, rounds) == Ends(outcome, 0, 0, maxRetries, |log| - q)
      ensures visited <= log[q..] && snapshots == ApplyAll(old(snapshots), visited)
      ensures ok ==> exists k :: q <= k <= |log| <= k + PAGE_LIMIT && Splits(log, lastCursor, k)
    {
      hide Newest, Latest, Ordered, Splits, ApplyAll, Ends, Arrived;
      ok, rounds, visited := true, 0, [];
      var cursor, retries, more := lastCursor, 0, true;
      ghost var at, last := q, q;
      EmptyReplay(snapshots, log, q);
      NewestOfNone<Event>(BUFFER_CAPACITY);
      NothingArrived(live);
      while more
        invariant ok && buffering && liveBuffer == Newest(Arrived(live, rounds), BUFFER_CAPACITY)
        invariant q <= at <= |log| && visited == log[q..at] && (!more ==> at == |log|)
        invariant q <= last <= at && lastCursor == cursor && Splits(log, cursor, last)
        invariant if more then last == at else |log| <= last + PAGE_LIMIT
        invariant snapshots == ApplyAll(old(snapshots), log[q..at]) && retries <= maxRetries
        invariant Ends(outcome, 0, 0, maxRetries, |log| - q)
                  == if more then Ends(outcome, rounds, retries, maxRetries, |log| - at) else (true, rounds)
        decreases more, |log| - at, maxRetries - retries
      {
        EndsNext(outcome, rounds, retries, maxRetries, |log| - at);
        ArrivedNext(live, rounds);
        UpdateAll(live(rounds), Arrived(live, rounds));
        rounds := rounds + 1;
        if outcome(rounds - 1) == Cancelled {
          return false, rounds, visited;
        }
        if outcome(rounds - 1) == QueryError {
          retries := retries + 1;
          if retries > maxRetries {
            return false, rounds, visited;
          }
        } else {
          retries := 0;
          ghost var from := at;
          cursor, more, at := OnePage(log, cursor, at);
          visited := visited + log[from..at];
          last := if more then at else from;
          ApplySlices(old(snapshots), log, q, from, at);
        }
      }
      OverlapHarmless(old(snapshots), log, q, p);
    }

    /**
     Recovery equivalence: if the checkpoint is the snapshot of a prefix of the log that reaches
     at least to its cursor, recovery ends with the snapshot of the whole log, overlaid in order
     by the newest events that arrived live meanwhile; each later row is visited once.
     */
    method Recover(disk: Disk<Saved>, log: seq<Row>, live: nat -> seq<Event>, outcome: nat -> Outcome, maxRetries: nat, ghost q: nat, ghost p: nat)
      returns (ok: bool, rounds: nat, ghost visited: seq<Row>)
      requires snapshots == map[] && lastCursor == Key(0, 0) && liveBuffer == [] && Ordered(log)
      requires Splits(log, Basis(disk).cursor, q) && q <= p <= |log| && Latest(Basis(disk).symbols, log[..p])
      modifies this
      ensures !buffering && liveBuffer == []
      ensures ok ==> visited == log[q..]
      ensures ok ==> exists m :: Latest(m, log) && Overlaid(snapshots, m, Newest(Arrived(live, rounds), BUFFER_CAPACITY))
      ensures (ok, rounds) == Ends(outcome, 0, 0, maxRetries, |log| - q)
      ensures visited <= log[q..] && Overlaid(snapshots, ApplyAll(Basis(disk).symbols, visited), Newest(Arrived(live, rounds), BUFFER_CAPACITY))
    {
      hide Overlaid, Overlay;
      buffering := true;
      LoadCheckpoint(disk);
      ok, rounds, visited := ReplayLog(log, live, outcome, maxRetries, q, p);
      StopBuffering();
    }
  }

  lemma {:induction false} EmptyReplay(m: map<string, Event>, log: seq<Row>, q: nat)
    requires q <= |log|
    ensures ApplyAll(m, log[q..q]) == m
  {
    assert log[q..q] == [];
  }

  lemma {:induction false} NewestOfNone<T>(n: nat)
    ensures Newest<T>([], n) == []
  {
  }

  lemma {:induction false} ApplySlices(m: map<string, Event>, log: seq<Row>, q: nat, i: nat, j: nat)
    requires q <= i <= j <= |log|
    ensures log[q..i] + log[i..j] == log[q..j]
    ensures ApplyAll(ApplyAll(m, log[q..i]), log[i..j]) == ApplyAll(m, log[q..j])
  {
    assert log[q..i] + log[i..j] == log[q..j];
    ApplyAppend(m, log[q..i], log[i..j]);
  }

  lemma {:induction false} ApplyAppend(m: map<string, Event>, a: seq<Row>, b: seq<Row>)
    ensures ApplyAll(m, a + b) == ApplyAll(ApplyAll(m, a), b)
  {
    if b == [] {
      assert a + b == a;
    } else {
      assert (a + b)[..|a + b| - 1] == a + b[..|b| - 1];
      ApplyAppend(m, a, b[..|b| - 1]);
    }
  }

  datatype Outcome = Answered | QueryError | Cancelled

  /** What recovery starts from: the loaded checkpoint, or nothing. */
  function Basis(disk: Disk<Saved>): Saved
  {
    match Load(disk)
    case Some(cp) => cp.contents
    case None => Saved(Key(0, 0), map[])
  }

  lemma {:induction false} NewestAppend<T>(s: seq<T>, x: T, n: nat)
    requires n > 0
    ensures Newest(Newest(s, n) + [x], n) == Newest(s + [x], n)
  {
  }
}
