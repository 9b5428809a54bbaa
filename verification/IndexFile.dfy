/**
 The sparse index of a segment (internal/wal/index.go): 16-byte entries mapping a sequence
 number to the byte offset of its record, searched by bisection on the file.
 */
module IndexFile {
  import opened Bytes

  const ENTRY_BYTES := 16

  datatype Entry = Entry(sequence: U64, offset: U64)
  datatype Found = Found(entry: Entry) | EmptyIndex

  function EncodeEntry(e: Entry): (s: seq<Byte>)
    ensures |s| == ENTRY_BYTES
  {
    ToLE(e.sequence, 8) + ToLE(e.offset, 8)
  }

  function DecodeEntry(s: seq<Byte>): Entry
    requires |s| == ENTRY_BYTES
  {
    PowersOf256();
    Entry(FromLE(s[0..8]), FromLE(s[8..16]))
  }

  lemma {:induction false} EntryRoundTrip(e: Entry)
    ensures DecodeEntry(EncodeEntry(e)) == e
  {
    PowersOf256();
    assert EncodeEntry(e)[0..8] == ToLE(e.sequence, 8);
    assert EncodeEntry(e)[8..16] == ToLE(e.offset, 8);
    FromToLEExact(e.sequence, 8);
    FromToLEExact(e.offset, 8);
  }

  /** The i-th slot of an index file. */
  function Slot(data: seq<Byte>, i: nat): Entry
    requires (i + 1) * ENTRY_BYTES <= |data|
  {
    DecodeEntry(data[i * ENTRY_BYTES..(i + 1) * ENTRY_BYTES])
  }

  ghost predicate Holds(data: seq<Byte>, entries: seq<Entry>)
  {
    && |data| == |entries| * ENTRY_BYTES
    && forall i :: 0 <= i < |entries| ==> Slot(data, i) == entries[i]
  }

  ghost predicate Sorted(entries: seq<Entry>)
  {
    forall i, j :: 0 <= i < j < |entries| ==> entries[i].sequence < entries[j].sequence
  }

  /** Position k answers a lookup: the last entry not beyond the target, else the first one. */
  ghost predicate Answers(entries: seq<Entry>, target: U64, k: nat)
  {
    && k < |entries|
    && (entries[k].sequence <= target || k == 0)
    && (k + 1 < |entries| ==> entries[k + 1].sequence > target)
  }

  class IndexFile {
    var data: seq<Byte>
    var size: nat
    ghost var entries: seq<Entry>

    constructor ()
      ensures Valid() && entries == []
    {
      data, size, entries := [], 0, [];
    }

    ghost predicate Valid()
      reads this
    {
      size == |data| && Holds(data, entries)
    }

    method Append(sequence: U64, offset: U64)
      requires Valid()
      modifies this
      ensures Valid() && entries == old(entries) + [Entry(sequence, offset)]
      ensures data == old(data) + (ToLE(sequence, 8) + ToLE(offset, 8))
    {
      var buf := new Byte[ENTRY_BYTES](_ => 0);
      PutLE(buf, 0, 8, sequence);
      PutLE(buf, 8, 8, offset);
      assert buf[..] == EncodeEntry(Entry(sequence, offset));
      AppendHolds(data, entries, Entry(sequence, offset));
      data := data + buf[..];
      size := size + ENTRY_BYTES;
      entries := entries + [Entry(sequence, offset)];
    }

    /** Bisects the file; on a sorted index the answer is the greatest entry not beyond the target. */
    method Lookup(target: U64) returns (r: Found)
      requires Valid()
      ensures r == EmptyIndex <==> entries == []
      ensures Sorted(entries) && entries != [] ==>
                exists k: nat :: Answers(entries, target, k) && r == Found(entries[k])
    {
      hide DecodeEntry;
      if size == 0 {
        return EmptyIndex;
      }
      var best, found := Entry(0, 0), false;
      var low, high := 0, size / ENTRY_BYTES - 1;
      while low <= high
        invariant 0 <= low <= high + 1 <= |entries|
        invariant found ==> low > 0 && best == entries[low - 1] && best.sequence < target
        invariant !found ==> low == 0
        invariant Sorted(entries) ==> forall i :: high < i < |entries| ==> entries[i].sequence > target
        decreases high - low
      {
        var mid := low + (high - low) / 2;
        var e := Slot(data, mid);
        if e.sequence == target {
          assert Sorted(entries) ==> Answers(entries, target, mid);
          return Found(e);
        }
        if e.sequence < target {
          best, found, low := e, true, mid + 1;
        } else {
          high := mid - 1;
        }
      }
      if !found {
        assert Sorted(entries) ==> Answers(entries, target, 0);
        return Found(Slot(data, 0));
      }
      assert Sorted(entries) ==> Answers(entries, target, low - 1);
      return Found(best);
    }
  }

  lemma {:induction false} AppendHolds(data: seq<Byte>, entries: seq<Entry>, e: Entry)
    requires Holds(data, entries)
    ensures Holds(data + EncodeEntry(e), entries + [e])
  {
    var data', n := data + EncodeEntry(e), |entries|;
    EntryRoundTrip(e);
    assert data'[n * ENTRY_BYTES..(n + 1) * ENTRY_BYTES] == EncodeEntry(e);
    forall i | 0 <= i < n
      ensures Slot(data', i) == entries[i]
    {
      assert data'[i * ENTRY_BYTES..(i + 1) * ENTRY_BYTES] == data[i * ENTRY_BYTES..(i + 1) * ENTRY_BYTES];
    }
  }
}
