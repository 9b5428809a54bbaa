/**
 What a segmented log holds, as values: which messages retention has removed, which segments
 remain, and what reading their files in order yields.
 */
module Layout {
  import opened Bytes
  import opened Framing
  import opened Record
  import opened Segment

  datatype Part = Part(base: U64, msgs: seq<Message>)

  function AllMsgs(parts: seq<Part>): seq<Message>
  {
    if parts == [] then [] else parts[0].msgs + AllMsgs(parts[1..])
  }

  ghost predicate Below(ms: seq<Message>, bound: int)
  {
    forall i :: 0 <= i < |ms| ==> ms[i].sequence < bound
  }

  ghost predicate AtLeast(ms: seq<Message>, bound: int)
  {
    forall i :: 0 <= i < |ms| ==> bound <= ms[i].sequence
  }

  /** Segments cover consecutive ranges of sequence numbers, above everything removed. */
  ghost predicate LaidOut(gone: seq<Message>, parts: seq<Part>)
  {
    && (parts != [] ==> Below(gone, parts[0].base))
    && (forall i :: 0 <= i < |parts| ==> AtLeast(parts[i].msgs, parts[i].base))
    && (forall i, j :: 0 <= i < j < |parts| ==> parts[i].base < parts[j].base && Below(parts[i].msgs, parts[j].base))
  }

  /** Everything appended so far, removed or not. */
  function Whole(gone: seq<Message>, parts: seq<Part>): seq<Message>
  {
    gone + AllMsgs(parts)
  }

  lemma {:induction false} AllMsgsAppend(ps: seq<Part>, qs: seq<Part>)
    ensures AllMsgs(ps + qs) == AllMsgs(ps) + AllMsgs(qs)
  {
    if ps == [] {
      assert ps + qs == qs;
    } else {
      assert (ps + qs)[1..] == ps[1..] + qs;
      AllMsgsAppend(ps[1..], qs);
    }
  }

  lemma {:induction false} AllMsgsSplit(parts: seq<Part>, k: nat)
    requires k <= |parts|
    ensures AllMsgs(parts) == AllMsgs(parts[..k]) + AllMsgs(parts[k..])
  {
    assert parts == parts[..k] + parts[k..];
    AllMsgsAppend(parts[..k], parts[k..]);
  }

  lemma {:induction false} AllMsgsOne(p: Part)
    ensures AllMsgs([p]) == p.msgs
  {
    assert AllMsgs([p]) == p.msgs + AllMsgs([]);
  }

  lemma {:induction false} AllMsgsBelow(parts: seq<Part>, bound: int)
    requires forall i :: 0 <= i < |parts| ==> Below(parts[i].msgs, bound)
    ensures Below(AllMsgs(parts), bound)
  {
    if parts == [] {
    } else {
      AllMsgsBelow(parts[1..], bound);
    }
  }

  lemma {:induction false} AllMsgsAtLeast(parts: seq<Part>, bound: int)
    requires forall i :: 0 <= i < |parts| ==> AtLeast(parts[i].msgs, bound)
    ensures AtLeast(AllMsgs(parts), bound)
  {
    if parts == [] {
    } else {
      AllMsgsAtLeast(parts[1..], bound);
    }
  }

  /** The bytes the segments occupy. */
  function TotalBytes(parts: seq<Part>): nat
  {
    if parts == [] then 0 else |EncodeAll(parts[0].msgs)| + TotalBytes(parts[1..])
  }

  lemma {:induction false} TotalBytesSnoc(parts: seq<Part>, k: nat)
    requires k < |parts|
    ensures TotalBytes(parts[..k + 1]) == TotalBytes(parts[..k]) + |EncodeAll(parts[k].msgs)|
    ensures TotalBytes(parts[k..]) == |EncodeAll(parts[k].msgs)| + TotalBytes(parts[k + 1..])
  {
    hide EncodeAll;
    assert parts[k..][1..] == parts[k + 1..];
    if k == 0 {
    } else {
      TotalBytesSnoc(parts[1..], k - 1);
      assert parts[..k + 1][1..] == parts[1..][..k] && parts[..k][1..] == parts[1..][..k - 1];
    }
  }

  // ---------- Steps ----------

  /** Appending to the last segment. */
  lemma {:induction false} ExtendLast(gone: seq<Message>, parts: seq<Part>, m: Message)
    requires parts != [] && LaidOut(gone, parts) && parts[|parts| - 1].base <= m.sequence
    ensures var n := |parts| - 1; var grown := parts[n := Part(parts[n].base, parts[n].msgs + [m])];
            LaidOut(gone, grown) && Whole(gone, grown) == Whole(gone, parts) + [m]
  {
    var n := |parts| - 1;
    var p := Part(parts[n].base, parts[n].msgs + [m]);
    var grown := parts[n := p];
    ReplaceLast(parts, p);
    assert Whole(gone, grown) == Whole(gone, parts) + [m];
    forall i, j | 0 <= i < j < |grown|
      ensures grown[i].base < grown[j].base && Below(grown[i].msgs, grown[j].base)
    {
      BasesIncrease(gone, parts, i, j);
    }
  }

  lemma {:induction false} ReplaceLast(parts: seq<Part>, p: Part)
    requires parts != []
    ensures AllMsgs(parts) == AllMsgs(parts[..|parts| - 1]) + parts[|parts| - 1].msgs
    ensures AllMsgs(parts[|parts| - 1 := p]) == AllMsgs(parts[..|parts| - 1]) + p.msgs
  {
    var n := |parts| - 1;
    var changed := parts[n := p];
    AllMsgsSplit(parts, n);
    AllMsgsSplit(changed, n);
    assert parts[n..] == [parts[n]] && changed[n..] == [p] && changed[..n] == parts[..n];
    AllMsgsOne(parts[n]);
    AllMsgsOne(p);
  }

  /** Starting a new segment whose base lies above everything written. */
  lemma {:induction false} StartSegment(gone: seq<Message>, parts: seq<Part>, base: U64)
    requires parts != [] && LaidOut(gone, parts)
    requires Below(Whole(gone, parts), base) && parts[|parts| - 1].msgs != []
    ensures LaidOut(gone, parts + [Part(base, [])]) && Whole(gone, parts + [Part(base, [])]) == Whole(gone, parts)
  {
    AllMsgsAppend(parts, [Part(base, [])]);
    AllMsgsOne(Part(base, []));
    var last := parts[|parts| - 1];
    forall i | 0 <= i < |parts|
      ensures Below(parts[i].msgs, base) && parts[i].base < base
    {
      PartBelow(gone, parts, base, i);
      PartBelow(gone, parts, base, |parts| - 1);
      assert last.base <= last.msgs[0].sequence < base;
    }
  }

  lemma {:induction false} BasesIncrease(gone: seq<Message>, parts: seq<Part>, i: nat, j: nat)
    requires LaidOut(gone, parts) && i < j < |parts|
    ensures parts[i].base < parts[j].base && Below(parts[i].msgs, parts[j].base)
  {
  }

  lemma {:induction false} PartBelow(gone: seq<Message>, parts: seq<Part>, bound: int, i: nat)
    requires i < |parts| && Below(Whole(gone, parts), bound)
    ensures Below(parts[i].msgs, bound)
  {
    AllMsgsSplit(parts, i);
    var w, pre := Whole(gone, parts), gone + AllMsgs(parts[..i]);
    assert parts[i..][1..] == parts[i + 1..];
    assert w == pre + (parts[i].msgs + AllMsgs(parts[i + 1..]));
    assert forall j :: 0 <= j < |parts[i].msgs| ==> parts[i].msgs[j] == w[|pre| + j];
  }

  lemma {:induction false} NoParts()
    ensures AllMsgs([]) == []
  {
  }

  /** Removing the oldest k segments. */
  lemma {:induction false} RemoveOldest(gone: seq<Message>, parts: seq<Part>, k: nat)
    requires k < |parts| && LaidOut(gone, parts)
    ensures LaidOut(gone + AllMsgs(parts[..k]), parts[k..])
    ensures Whole(gone + AllMsgs(parts[..k]), parts[k..]) == Whole(gone, parts)
  {
    hide AllMsgs;
    AllMsgsSplit(parts, k);
    assert gone + (AllMsgs(parts[..k]) + AllMsgs(parts[k..])) == gone + AllMsgs(parts[..k]) + AllMsgs(parts[k..]);
    if k == 0 {
      assert parts[..0] == [] && parts[0..] == parts;
      NoParts();
    } else {
      BasesIncrease(gone, parts, 0, k);
    }
    AllMsgsBelow(parts[..k], parts[k].base);
  }

  lemma {:induction false} NothingEncoded()
    ensures EncodeAll([]) == []
  {
  }

  /** The segments after a roll, if the active one is full. */
  function RolledParts(parts: seq<Part>, base: U64, maxSegmentBytes: int): (r: seq<Part>)
    requires parts != []
    ensures r != []
  {
    if |EncodeAll(parts[|parts| - 1].msgs)| >= maxSegmentBytes then parts + [Part(base, [])] else parts
  }

  /** The segments after an append, which a topic too long for its field makes fail. */
  function ExtendedParts(parts: seq<Part>, m: Message): (r: seq<Part>)
    requires parts != []
    ensures |r| == |parts|
  {
    var n := |parts| - 1;
    if |m.topic| <= MAX_TOPIC then parts[n := Part(parts[n].base, parts[n].msgs + [m])] else parts
  }

  /** What is left from segment i on is too big, or the segment is too old. */
  predicate Outlived(parts: seq<Part>, retentionBytes: int, ageLimited: bool, aged: seq<bool>, i: nat)
    requires i < |parts| == |aged|
  {
    TotalBytes(parts[i..]) > retentionBytes || (ageLimited && aged[i])
  }

  /** The first segment from i on that retention keeps: one not outlived, or the active one. */
  function FirstKept(parts: seq<Part>, retentionBytes: int, ageLimited: bool, aged: seq<bool>, i: nat): (k: nat)
    requires i < |parts| == |aged|
    ensures i <= k < |parts|
    decreases |parts| - i
  {
    if i + 1 < |parts| && Outlived(parts, retentionBytes, ageLimited, aged, i)
    then FirstKept(parts, retentionBytes, ageLimited, aged, i + 1) else i
  }

  /** The segments occupy the bytes of all their records. */
  lemma {:induction false} TotalIsEncoded(parts: seq<Part>)
    ensures TotalBytes(parts) == |EncodeAll(AllMsgs(parts))|
  {
    if parts == [] {
    } else {
      TotalIsEncoded(parts[1..]);
      ConcatAppend(Encode, parts[0].msgs, AllMsgs(parts[1..]));
    }
  }

  /**
   Retention removes as long as the records left exceed the limit or the oldest segment is too old,
   and no longer: at the first segment kept neither holds, unless it is the active one.
   */
  lemma {:induction false} RetentionIs(parts: seq<Part>, retentionBytes: int, ageLimited: bool, aged: seq<bool>, i: nat)
    requires i < |parts| == |aged|
    ensures var k := FirstKept(parts, retentionBytes, ageLimited, aged, i);
            && (k + 1 < |parts| ==> |EncodeAll(AllMsgs(parts[k..]))| <= retentionBytes && !(ageLimited && aged[k]))
            && (forall j :: i <= j < k ==> |EncodeAll(AllMsgs(parts[j..]))| > retentionBytes || (ageLimited && aged[j]))
    decreases |parts| - i
  {
    hide EncodeAll, AllMsgs, TotalBytes;
    TotalIsEncoded(parts[i..]);
    if i + 1 < |parts| && Outlived(parts, retentionBytes, ageLimited, aged, i) {
      RetentionIs(parts, retentionBytes, ageLimited, aged, i + 1);
    }
  }

  // ---------- Reading ----------

  /** What a scan of one segment file yields. */
  function Readable(file: seq<Byte>): seq<Message>
  {
    Messages(file).0
  }

  /** What scanning the files from index i on yields. */
  function ReadableFrom(files: seq<seq<Byte>>, i: nat): seq<Message>
    decreases |files| - i
  {
    if i >= |files| then [] else Readable(files[i]) + ReadableFrom(files, i + 1)
  }

  /** Every file but the last holds its whole segment; the last holds `n` bytes of it. */
  ghost predicate Flushed(parts: seq<Part>, files: seq<seq<Byte>>, n: nat)
  {
    && |parts| == |files| > 0
    && (forall i :: 0 <= i < |parts| ==> AllStorable(parts[i].msgs))
    && (forall i :: 0 <= i < |parts| - 1 ==> files[i] == EncodeAll(parts[i].msgs))
    && n <= |EncodeAll(parts[|parts| - 1].msgs)|
    && files[|parts| - 1] == EncodeAll(parts[|parts| - 1].msgs)[..n]
  }

  /** The log without the records of the last segment that are not wholly in its file. */
  ghost function VisibleParts(parts: seq<Part>, n: nat): (r: seq<Part>)
    requires parts != [] && n <= |EncodeAll(parts[|parts| - 1].msgs)|
    ensures |r| == |parts|
  {
    var last := parts[|parts| - 1];
    parts[|parts| - 1 := Part(last.base, last.msgs[..WholeCount(last.msgs, n)])]
  }

  ghost function WholeCount(ms: seq<Message>, n: nat): (k: nat)
    requires n <= |EncodeAll(ms)|
    ensures WhollyInside(Encode, ms, n, k) && k <= |ms|
  {
    assert exists k: nat :: WhollyInside(Encode, ms, n, k) by { var k := WholeCountExists(Encode, ms, n); }
    var k: nat :| WhollyInside(Encode, ms, n, k); k
  }

  lemma {:induction false} StoredAppend(xs: seq<Message>, ys: seq<Message>)
    ensures StoredAll(xs + ys) == StoredAll(xs) + StoredAll(ys)
  {
  }

  lemma {:induction false} FileHolds(parts: seq<Part>, files: seq<seq<Byte>>, n: nat, i: nat)
    requires Flushed(parts, files, n) && i < |parts|
    ensures Readable(files[i]) == StoredAll(VisibleParts(parts, n)[i].msgs)
  {
    if i == |parts| - 1 {
      LogPrefix(parts[i].msgs, n, WholeCount(parts[i].msgs, n));
    } else {
      RoundTripAll(parts[i].msgs);
    }
  }

  /** Scanning the files in order yields the visible messages in order. */
  lemma {:induction false} ScanIsLog(parts: seq<Part>, files: seq<seq<Byte>>, n: nat, i: nat)
    requires Flushed(parts, files, n) && i <= |parts|
    ensures ReadableFrom(files, i) == StoredAll(AllMsgs(VisibleParts(parts, n)[i..]))
    decreases |parts| - i
  {
    if i == |parts| {
    } else {
      var vis := VisibleParts(parts, n);
      FileHolds(parts, files, n, i);
      ScanIsLog(parts, files, n, i + 1);
      assert vis[i..][1..] == vis[i + 1..];
      StoredAppend(vis[i].msgs, AllMsgs(vis[i + 1..]));
    }
  }

  /** Cutting a laid-out log at the segment that covers `start`. */
  lemma {:induction false} FromSegment(gone: seq<Message>, parts: seq<Part>, k: nat, start: int)
    requires LaidOut(gone, parts) && k < |parts| && parts[k].base <= start
    requires k + 1 < |parts| ==> start < parts[k + 1].base
    ensures From(StoredAll(Whole(gone, parts)), start) ==
            From(StoredAll(parts[k].msgs), start) + StoredAll(AllMsgs(parts[k + 1..]))
  {
    var before, here, after := gone + AllMsgs(parts[..k]), parts[k].msgs, AllMsgs(parts[k + 1..]);
    AllMsgsSplit(parts, k);
    assert parts[k..][1..] == parts[k + 1..];
    assert Whole(gone, parts) == before + (here + after);
    StoredAppend(before, here + after);
    StoredAppend(here, after);
    RemoveOldest(gone, parts, k);
    FromNone(StoredAll(before), start);
    AllMsgsAtLeast(parts[k + 1..], start);
    FromAll(StoredAll(after), start);
    FromAppend(StoredAll(before), StoredAll(here) + StoredAll(after), start);
    FromAppend(StoredAll(here), StoredAll(after), start);
  }

  lemma {:induction false} VisibleLaidOut(gone: seq<Message>, parts: seq<Part>, n: nat)
    requires LaidOut(gone, parts) && parts != [] && n <= |EncodeAll(parts[|parts| - 1].msgs)|
    ensures LaidOut(gone, VisibleParts(parts, n))
    ensures forall i :: 0 <= i < |parts| ==> VisibleParts(parts, n)[i].base == parts[i].base
  {
    hide EncodeAll, Encode;
    var vis := VisibleParts(parts, n);
    forall i | 0 <= i < |parts|
      ensures vis[i].base == parts[i].base && vis[i].msgs <= parts[i].msgs
    {
    }
    forall i, j | 0 <= i < j < |parts|
      ensures vis[i].base < vis[j].base && Below(vis[i].msgs, vis[j].base)
    {
      BasesIncrease(gone, parts, i, j);
    }
  }

  /**
   No silent gap: reading from the last segment whose base does not exceed `start` yields
   every visible message ever appended from `start` on, including none that retention removed.
   */
  lemma {:induction false} NoSilentGap(gone: seq<Message>, parts: seq<Part>, files: seq<seq<Byte>>, n: nat, k: nat, start: int)
    requires LaidOut(gone, parts) && Flushed(parts, files, n)
    requires k < |parts| && parts[k].base <= start && (k + 1 < |parts| ==> start < parts[k + 1].base)
    ensures From(Readable(files[k]), start) + ReadableFrom(files, k + 1) ==
            From(StoredAll(Whole(gone, VisibleParts(parts, n))), start)
  {
    FileHolds(parts, files, n, k);
    ScanIsLog(parts, files, n, k + 1);
    VisibleLaidOut(gone, parts, n);
    FromSegment(gone, VisibleParts(parts, n), k, start);
  }

  lemma {:induction false} VisiblePrefix(gone: seq<Message>, parts: seq<Part>, n: nat)
    requires parts != [] && n <= |EncodeAll(parts[|parts| - 1].msgs)|
    ensures Whole(gone, VisibleParts(parts, n)) <= Whole(gone, parts)
  {
    var vis := VisibleParts(parts, n);
    ReplaceLast(parts, vis[|parts| - 1]);
  }

  /** Once everything is flushed, the visible log is the log. */
  lemma {:induction false} FullyFlushed(parts: seq<Part>, files: seq<seq<Byte>>)
    requires parts != [] && Flushed(parts, files, |EncodeAll(parts[|parts| - 1].msgs)|)
    ensures VisibleParts(parts, |EncodeAll(parts[|parts| - 1].msgs)|) == parts
  {
    var ms := parts[|parts| - 1].msgs;
    var k := WholeCount(ms, |EncodeAll(ms)|);
    assert ms[..|ms|] == ms;
    if k < |ms| {
      ConcatMiddle(Encode, ms, k + 1, |ms|);
    }
  }
}
