/**
 Snapshot checkpoints on disk (internal/snapshot/snapshot.go): the current file is rotated to
 a fallback before a new one is written beside it and renamed into place. Renames are atomic;
 a crash while writing leaves the temporary file torn.
 */
module Checkpoints {
  import opened Collections

  /** A checkpoint and its place in the order in which checkpoints are taken. */
  datatype Checkpoint<T> = Checkpoint(serial: nat, contents: T)

  /** A file is absent, cut short so that it does not parse, or whole. */
  datatype File<T> = Missing | Torn | Whole(cp: Checkpoint<T>)

  datatype Disk<T> = Disk(current: File<T>, prev: File<T>, tmp: File<T>)

  /** LoadCheckpoint: the current file if it parses, else the fallback, else nothing. */
  function Load<T>(d: Disk<T>): (r: Option<Checkpoint<T>>)
    ensures r.Some? <==> d.current.Whole? || d.prev.Whole?
  {
    if d.current.Whole? then Some(d.current.cp)
    else if d.prev.Whole? then Some(d.prev.cp)
    else None
  }

  /** What can go wrong in one call, and after how many steps on the disk the process dies. */
  datatype Faults = Faults(removeFails: bool, rotateFails: bool, writeFails: bool, installFails: bool, steps: nat)

  /** The steps that come before the new file is written: removing and rotating, if there is a current file. */
  function Rotating<T>(d: Disk<T>): nat
  {
    if d.current.Missing? then 0 else 2
  }

  /** A call completes exactly when nothing essential fails and the process survives every step. */
  predicate Completes<T>(d: Disk<T>, f: Faults)
  {
    !f.writeFails && !f.installFails && f.steps >= Rotating(d) + 4
  }

  /** The disk after a call, wherever it stopped. */
  function AfterCall<T>(d: Disk<T>, cp: Checkpoint<T>, f: Faults): Disk<T>
  {
    var n := Rotating(d);
    var d := if n == 2 && f.steps >= 1 && !f.removeFails then d.(prev := Missing) else d;
    var d := if n == 2 && f.steps >= 2 && !f.rotateFails then d.(current := Missing, prev := d.current) else d;
    var d := if f.steps <= n then d else if f.steps == n + 1 || f.writeFails then d.(tmp := Torn) else d.(tmp := Whole(cp));
    if f.steps < n + 3 || f.writeFails then d
    else if f.installFails then d.(tmp := Missing)
    else d.(current := Whole(cp), tmp := Missing)
  }

  /** The disk after any number of calls on an empty one. */
  function AfterAll<T>(calls: seq<(Checkpoint<T>, Faults)>): Disk<T>
  {
    if calls == [] then Disk(Missing, Missing, Missing)
    else AfterCall(AfterAll(calls[..|calls| - 1]), calls[|calls| - 1].0, calls[|calls| - 1].1)
  }

  // ---------- What a call can do, wherever it stops ----------

  /** The current file is never torn, because it only ever appears by renaming. */
  ghost predicate Sound<T>(d: Disk<T>)
  {
    !d.current.Torn?
  }

  /** Loading returns what it did before or this checkpoint in full; if the call completes, this checkpoint. */
  lemma {:induction false} CallIsSafe<T>(d: Disk<T>, cp: Checkpoint<T>, f: Faults)
    requires Sound(d)
    ensures var d' := AfterCall(d, cp, f);
            && Sound(d') && (Load(d') == Load(d) || Load(d') == Some(cp))
            && (Completes(d, f) ==> Load(d') == Some(cp))
  {
  }

  /** A completed call keeps the former checkpoint to fall back on, should the new one be damaged, exactly if it was rotated. */
  lemma {:induction false} FallbackIff<T>(d: Disk<T>, cp: Checkpoint<T>, f: Faults)
    requires d.current.Whole? && d.prev != d.current && Completes(d, f)
    ensures Load(AfterCall(d, cp, f).(current := Torn)) == Some(d.current.cp) <==> !f.rotateFails
  {
  }

  ghost predicate Increasing<T>(calls: seq<(Checkpoint<T>, Faults)>)
  {
    forall i, j :: 0 <= i < j < |calls| ==> calls[i].0.serial < calls[j].0.serial
  }

  /** Call i completed, given those before it. */
  predicate Completed<T>(calls: seq<(Checkpoint<T>, Faults)>, i: nat)
    requires i < |calls|
  {
    Completes(AfterAll(calls[..i]), calls[i].1)
  }

  lemma {:induction false} AllSound<T>(calls: seq<(Checkpoint<T>, Faults)>)
    ensures Sound(AfterAll(calls))
  {
    if calls == [] {
    } else {
      var n := |calls| - 1;
      AllSound(calls[..n]);
      CallIsSafe(AfterAll(calls[..n]), calls[n].0, calls[n].1);
    }
  }

  /** What loads after any calls is one of their checkpoints in full. */
  lemma {:induction false} LoadedIsWhole<T>(calls: seq<(Checkpoint<T>, Faults)>) returns (i: nat)
    requires Load(AfterAll(calls)).Some?
    ensures i < |calls| && calls[i].0 == Load(AfterAll(calls)).value
  {
    hide AfterCall;
    var n := |calls| - 1;
    AllSound(calls[..n]);
    CallIsSafe(AfterAll(calls[..n]), calls[n].0, calls[n].1);
    if Load(AfterAll(calls)) == Some(calls[n].0) {
      i := n;
    } else {
      i := LoadedIsWhole(calls[..n]);
    }
  }

  /** Whatever happens later, a completed checkpoint is covered by what loads: that one or a newer one. */
  lemma {:induction false} NeverOlder<T>(calls: seq<(Checkpoint<T>, Faults)>, i: nat)
    requires Increasing(calls) && i < |calls| && Completed(calls, i)
    ensures Load(AfterAll(calls)).Some? && Load(AfterAll(calls)).value.serial >= calls[i].0.serial
  {
    hide AfterCall, Completes, Load;
    var n := |calls| - 1;
    AllSound(calls[..n]);
    CallIsSafe(AfterAll(calls[..n]), calls[n].0, calls[n].1);
    if i == n {
    } else {
      assert calls[..n][..i] == calls[..i];
      NeverOlder(calls[..n], i);
    }
  }

  class CheckpointStore<T> {
    var disk: Disk<T>

    constructor ()
      ensures disk == Disk(Missing, Missing, Missing)
    {
      disk := Disk(Missing, Missing, Missing);
    }

    /** One Checkpoint call that may fail or die between any two steps. */
    method Save(cp: Checkpoint<T>, f: Faults) returns (done: bool)
      requires Sound(disk)
      modifies this
      ensures Sound(disk) && disk == AfterCall(old(disk), cp, f) && done == Completes(old(disk), f)
      ensures Load(disk) == old(Load(disk)) || Load(disk) == Some(cp)
      ensures done ==> Load(disk) == Some(cp)
    {
      done := false;
      var left := f.steps;
      if disk.current != Missing {
        if left == 0 { return; }
        left := left - 1;
        if !f.removeFails {
          disk := disk.(prev := Missing);
        }
        if left == 0 { return; }
        left := left - 1;
        if !f.rotateFails {
          disk := disk.(current := Missing, prev := disk.current);
        }
      }
      if left == 0 { return; }
      left := left - 1;
      disk := disk.(tmp := Torn);
      if f.writeFails || left == 0 { return; }
      left := left - 1;
      disk := disk.(tmp := Whole(cp));
      if left == 0 { return; }
      left := left - 1;
      if f.installFails {
        disk := disk.(tmp := Missing);
        return;
      }
      disk := disk.(current := disk.tmp, tmp := Missing);
      if left == 0 { return; }
      done := true;
    }
  }

  /** Any number of calls, each failing or crashing anywhere. */
  method AnyCalls<T>(calls: seq<(Checkpoint<T>, Faults)>) returns (done: seq<bool>, loaded: Option<Checkpoint<T>>)
    ensures |done| == |calls| && loaded == Load(AfterAll(calls))
    ensures forall i :: 0 <= i < |calls| ==> done[i] == Completed(calls, i)
    ensures Increasing(calls) ==>
              forall i :: 0 <= i < |calls| && done[i] ==> loaded.Some? && loaded.value.serial >= calls[i].0.serial
  {
    hide AfterCall, Completes, Load;
    var store := new CheckpointStore<T>();
    done := [];
    for i := 0 to |calls|
      invariant |done| == i && Sound(store.disk) && store.disk == AfterAll(calls[..i])
      invariant forall j :: 0 <= j < i ==> done[j] == Completed(calls, j)
    {
      assert calls[..i + 1][..i] == calls[..i];
      var ok := store.Save(calls[i].0, calls[i].1);
      done := done + [ok];
    }
    assert calls[..|calls|] == calls;
    loaded := Load(store.disk);
    if Increasing(calls) {
      forall i | 0 <= i < |calls| && done[i]
        ensures loaded.Some? && loaded.value.serial >= calls[i].0.serial
      {
        NeverOlder(calls, i);
      }
    }
  }
}
