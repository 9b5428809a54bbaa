/**
 One segment of the log: a log file and its sparse index (internal/wal/segment.go).
 */
module Segment {
  import opened Bytes
  import opened Framing
  import opened Record
  import opened LogFile
  import Index = IndexFile

  ghost predicate Increasing(ms: seq<Message>)
  {
    forall i, j :: 0 <= i < j < |ms| ==> ms[i].sequence < ms[j].sequence
  }

  /** The messages of `ms` with sequence at least `start`, in order. */
  function From(ms: seq<Message>, start: int): seq<Message>
  {
    if ms == [] then []
    else (if ms[0].sequence >= start then [ms[0]] else []) + From(ms[1..], start)
  }

  lemma {:induction false} FromAppend(xs: seq<Message>, ys: seq<Message>, start: int)
    ensures From(xs + ys, start) == From(xs, start) + From(ys, start)
  {
    if xs == [] {
      assert xs + ys == ys;
    } else {
      var zs := xs + ys;
      assert zs[0] == xs[0] && zs[1..] == xs[1..] + ys;
      FromAppend(xs[1..], ys, start);
    }
  }

  lemma {:induction false} FromNone(xs: seq<Message>, start: int)
    requires forall i :: 0 <= i < |xs| ==> xs[i].sequence < start
    ensures From(xs, start) == []
  {
    if xs == [] {
    } else {
      FromNone(xs[1..], start);
    }
  }

  lemma {:induction false} FromAll(xs: seq<Message>, start: int)
    requires forall i :: 0 <= i < |xs| ==> xs[i].sequence >= start
    ensures From(xs, start) == xs
  {
    if xs == [] {
    } else {
      FromAll(xs[1..], start);
    }
  }

  lemma {:induction false} FromSkip(xs: seq<Message>, j: nat, start: int)
    requires j <= |xs| && forall i :: 0 <= i < j ==> xs[i].sequence < start
    ensures From(xs, start) == From(xs[j..], start)
  {
    assert xs == xs[..j] + xs[j..];
    FromNone(xs[..j], start);
    FromAppend(xs[..j], xs[j..], start);
  }

  // ---------- Index invariant ----------

  /** Entry `e` names record k and points at its first byte. */
  ghost predicate Points(e: Index.Entry, ms: seq<Message>, k: nat)
  {
    k < |ms| && e.sequence == ms[k].sequence && e.offset == |EncodeAll(ms[..k])|
  }

  /**
   Every entry points at the start of the record that carries its sequence number: entry i
   is for record at[i]. The first record always has an entry.
   */
  ghost predicate Indexes(entries: seq<Index.Entry>, at: seq<nat>, ms: seq<Message>)
  {
    && |at| == |entries|
    && (ms != [] ==> at != [] && at[0] == 0)
    && (forall i, j :: 0 <= i < j < |at| ==> at[i] < at[j])
    && (forall i :: 0 <= i < |at| ==> Points(entries[i], ms, at[i]))
  }

  lemma {:induction false} IndexesSorted(entries: seq<Index.Entry>, at: seq<nat>, ms: seq<Message>)
    requires Indexes(entries, at, ms) && Increasing(ms)
    ensures Index.Sorted(entries)
  {
  }

  lemma {:induction false} PointsAppend(e: Index.Entry, ms: seq<Message>, k: nat, m: Message)
    requires Points(e, ms, k)
    ensures Points(e, ms + [m], k)
  {
    assert (ms + [m])[..k] == ms[..k];
  }

  lemma {:induction false} IndexesAppend(entries: seq<Index.Entry>, at: seq<nat>, ms: seq<Message>, m: Message)
    requires Indexes(entries, at, ms)
    ensures ms != [] ==> Indexes(entries, at, ms + [m])
    ensures |EncodeAll(ms)| < TWO_64 ==>
              Indexes(entries + [Index.Entry(m.sequence, |EncodeAll(ms)|)], at + [|ms|], ms + [m])
  {
    forall i | 0 <= i < |at|
      ensures Points(entries[i], ms + [m], at[i])
    {
      PointsAppend(entries[i], ms, at[i], m);
    }
    assert (ms + [m])[..|ms|] == ms;
  }

  lemma {:induction false} SeekToVisible(ms: seq<Message>, n: nat, w: nat, j: nat, target: U64)
    requires AllStorable(ms) && WhollyInside(Encode, ms, n, w) && j <= w
    requires forall i :: 0 <= i < j ==> ms[i].sequence < target
    ensures |EncodeAll(ms[..j])| <= n <= |EncodeAll(ms)|
    ensures From(Messages(EncodeAll(ms)[..n][|EncodeAll(ms[..j])|..]).0, target) ==
            From(Messages(EncodeAll(ms)[..n]).0, target)
  {
    LogSuffix(ms, n, w, j);
    LogPrefix(ms, n, w);
    var xs := StoredAll(ms[..w]);
    assert xs[j..] == StoredAll(ms[j..w]);
    FromSkip(xs, j, target);
  }

  lemma {:induction false} SeekToUnflushed(ms: seq<Message>, n: nat, w: nat, j: nat, target: U64)
    requires AllStorable(ms) && WhollyInside(Encode, ms, n, w) && w < j < |ms|
    requires forall i :: 0 <= i < j ==> ms[i].sequence < target
    ensures n < |EncodeAll(ms[..j])|
    ensures From(Messages(EncodeAll(ms)[..n]).0, target) == []
  {
    LogPrefix(ms, n, w);
    BoundaryBeyond(Encode, ms, n, w, j);
    FromNone(StoredAll(ms[..w]), target);
  }

  /**
   Seeking with the index and skipping smaller sequences reads the same messages as a scan
   from offset 0, for every target and however much of the file has been flushed.
   */
  lemma {:induction false} SeekRefinesScan(ms: seq<Message>, n: nat, entries: seq<Index.Entry>, at: seq<nat>, target: U64, i: nat)
    requires AllStorable(ms) && Increasing(ms) && Indexes(entries, at, ms) && n <= |EncodeAll(ms)|
    requires Index.Answers(entries, target, i)
    ensures var file, off := EncodeAll(ms)[..n], entries[i].offset;
            From(Messages(if off <= n then file[off..] else []).0, target) == From(Messages(file).0, target)
  {
    var w := WholeCountExists(Encode, ms, n);
    assert Points(entries[i], ms, at[i]);
    if at[i] <= w {
      SeekToVisible(ms, n, w, at[i], target);
    } else {
      SeekToUnflushed(ms, n, w, at[i], target);
    }
  }

  // ---------- Segment ----------

  /** A log file and an index file together hold the messages `ms`. */
  ghost predicate Represents(written: seq<Byte>, entries: seq<Index.Entry>, at: seq<nat>, ms: seq<Message>)
  {
    AllStorable(ms) && Increasing(ms) && written == EncodeAll(ms) && Indexes(entries, at, ms)
  }

  /** Appending a record keeps this, with or without an index entry unless it is the first record. */
  lemma {:induction false} RepresentsAppend(written: seq<Byte>, entries: seq<Index.Entry>, at: seq<nat>, ms: seq<Message>, m: Message)
    requires Represents(written, entries, at, ms) && Storable(m) && |written| < TWO_64
    requires forall i :: 0 <= i < |ms| ==> ms[i].sequence < m.sequence
    ensures |written| > 0 ==> Represents(written + Encode(m), entries, at, ms + [m])
    ensures Represents(written + Encode(m), entries + [Index.Entry(m.sequence, |written|)], at + [|ms|], ms + [m])
  {
    EncodeSnoc(ms, m);
    IndexesAppend(entries, at, ms, m);
  }

  lemma {:induction false} RepresentsSize(written: seq<Byte>, entries: seq<Index.Entry>, at: seq<nat>, ms: seq<Message>)
    requires Represents(written, entries, at, ms)
    ensures |written| == |EncodeAll(ms)|
  {
  }

  datatype Placed = Placed(offset: nat) | Rejected

  class Segment {
    const base: U64
    const writer: LogWriter
    const index: Index.IndexFile
    const indexInterval: int
    var bytesSinceIndex: nat
    var currentSize: nat
    /** The records appended so far. */
    ghost var msgs: seq<Message>
    /** Which record each index entry is for. */
    ghost var at: seq<nat>

    constructor (base: U64, indexInterval: int)
      ensures Valid() && fresh(writer) && fresh(index)
      ensures this.base == base && msgs == [] && currentSize == 0
    {
      this.base, this.indexInterval := base, indexInterval;
      writer := new LogWriter();
      index := new Index.IndexFile();
      bytesSinceIndex, currentSize, msgs, at := 0, 0, [], [];
    }

    ghost predicate Valid()
      reads this, writer, index
    {
      && writer.Valid() && index.Valid()
      && currentSize == |writer.written|
      && Represents(writer.written, index.entries, at, msgs)
    }

    /** What is in the log file. */
    ghost function File(): seq<Byte>
      requires Valid()
      reads this, writer, index
    {
      writer.File()
    }

    /** Appends one record; the index gets an entry at the start and then once per interval. */
    method Append(m: Message) returns (r: Placed)
      requires Valid()
      requires |m.payload| < TWO_32 && currentSize < TWO_63
      requires forall i :: 0 <= i < |msgs| ==> msgs[i].sequence < m.sequence
      modifies this, writer, index
      ensures Valid()
      ensures |m.topic| > MAX_TOPIC ==> r == Rejected && msgs == old(msgs) && currentSize == old(currentSize)
      ensures |m.topic| <= MAX_TOPIC ==>
                && r == Placed(|EncodeAll(old(msgs))|) && msgs == old(msgs) + [m]
                && currentSize == old(currentSize) + |Encode(m)|
      ensures old(currentSize) + |Encode(m)| <= |old(File())| + BUFFER_BYTES ==> |File()| == |old(File())|
      ensures r.Placed? ==>
                if old(bytesSinceIndex) + |Encode(m)| >= indexInterval || old(currentSize) == 0
                then index.entries == old(index.entries) + [Index.Entry(m.sequence, old(currentSize))] && bytesSinceIndex == 0
                else index.entries == old(index.entries) && bytesSinceIndex == old(bytesSinceIndex) + |Encode(m)|
    {
      hide Represents, Encode, EncodeAll;
      RepresentsSize(writer.written, index.entries, at, msgs);
      var offset := currentSize;
      var written := writer.Append(m);
      if written.TopicTooLong? {
        return Rejected;
      }
      currentSize := currentSize + written.bytes;
      bytesSinceIndex := bytesSinceIndex + written.bytes;
      RepresentsAppend(old(writer.written), index.entries, at, msgs, m);
      if bytesSinceIndex >= indexInterval || offset == 0 {
        index.Append(m.sequence, offset);
        at := at + [|msgs|];
        bytesSinceIndex := 0;
      }
      msgs := msgs + [m];
      return Placed(offset);
    }

    lemma {:induction false} SizeOfMessages()
      requires Valid()
      ensures currentSize == |EncodeAll(msgs)|
      ensures currentSize > 0 <==> msgs != []
      ensures AllStorable(msgs)
      ensures |File()| <= currentSize && File() == EncodeAll(msgs)[..|File()|]
    {
    }

    method Sync()
      requires Valid()
      modifies writer
      ensures Valid() && File() == EncodeAll(msgs)
    {
      writer.Sync();
    }

    /** Opens a reader at the indexed offset; skipping below `target` it reads what a scan of the file reads. */
    method ReadAt(target: U64) returns (reader: LogReader)
      requires Valid()
      ensures fresh(reader) && fresh(reader.scratch) && reader.file == File()
      ensures From(Messages(reader.Unread()).0, target) == From(Messages(File()).0, target)
    {
      var found := index.Lookup(target);
      var offset := if found.EmptyIndex? then 0 else found.entry.offset;
      reader := new LogReader(writer.File(), offset);
      if found.Found? {
        IndexesSorted(index.entries, at, msgs);
        ghost var k: nat :| Index.Answers(index.entries, target, k) && found == Index.Found(index.entries[k]);
        SeekRefinesScan(msgs, writer.flushed, index.entries, at, target, k);
      } else {
        assert reader.Unread() == writer.File();
      }
    }
  }

  lemma {:induction false} EncodeSnoc(ms: seq<Message>, m: Message)
    ensures EncodeAll(ms + [m]) == EncodeAll(ms) + Encode(m)
  {
    ConcatAppend(Encode, ms, [m]);
    assert Concat(Encode, [m]) == Encode(m) + Concat(Encode, []);
  }
}
