/**
 The binary envelope of events on Redis (internal/distribution/redisbus/wire_envelope.go): fields
 one after another, each a fixed-width number or bytes behind a length, then the trace context.
 */
module WireEnvelope {
  import opened Bytes
  import opened Collections

  type Text = seq<Byte>

  datatype Kind = Number(width: nat) | Sized(width: nat)
  datatype Field = Num(width: nat, value: nat) | Str(width: nat, bytes: Text)

  function KindOf(f: Field): Kind
  {
    match f
    case Num(w, _) => Number(w)
    case Str(w, _) => Sized(w)
  }

  function Enc(f: Field): seq<Byte>
  {
    match f
    case Num(w, v) => ToLE(v, w)
    case Str(w, s) => ToLE(|s|, w) + s
  }

  /** The number, or the length, survives its width. */
  predicate Fits(f: Field)
  {
    match f
    case Num(w, v) => v < Pow256(w)
    case Str(w, s) => |s| < Pow256(w)
  }

  function EncAll(fs: seq<Field>): seq<Byte>
  {
    if fs == [] then [] else Enc(fs[0]) + EncAll(fs[1..])
  }

  function Kinds(fs: seq<Field>): (ks: seq<Kind>)
    ensures |ks| == |fs|
  {
    if fs == [] then [] else [KindOf(fs[0])] + Kinds(fs[1..])
  }

  function ReadOne(data: seq<Byte>, off: nat, kind: Kind): (r: Option<(Field, nat)>)
    ensures r.Some? ==> Fits(r.value.0) && KindOf(r.value.0) == kind && off <= r.value.1 <= |data|
  {
    if |data| < off + kind.width then None
    else
      var n, next := FromLE(data[off..off + kind.width]), off + kind.width;
      match kind
      case Number(w) => Some((Num(w, n), next))
      case Sized(w) => if |data| < next + n then None else Some((Str(w, data[next..next + n]), next + n))
  }

  /** Reads fields of the given kinds, after those already in `got`. */
  function Read(data: seq<Byte>, off: nat, kinds: seq<Kind>, got: seq<Field>): (r: Option<(seq<Field>, nat)>)
    decreases |kinds|
  {
    if kinds == [] then Some((got, off))
    else
      match ReadOne(data, off, kinds[0])
      case None => None
      case Some((f, next)) => Read(data, next, kinds[1..], got + [f])
  }

  // ---------- Fields: what was written is read, and nothing less ----------

  lemma {:induction false} ReadOneWritten(pre: seq<Byte>, f: Field, rest: seq<Byte>)
    requires Fits(f)
    ensures ReadOne(pre + Enc(f) + rest, |pre|, KindOf(f)) == Some((f, |pre| + |Enc(f)|))
  {
    hide ToLE, FromLE, Pow256;
    var data, off := pre + Enc(f) + rest, |pre|;
    var n := if f.Num? then f.value else |f.bytes|;
    assert data[off..off + f.width] == ToLE(n, f.width);
    FromToLEExact(n, f.width);
    if f.Str? {
      assert data[off + f.width..off + f.width + n] == f.bytes;
    }
  }

  lemma {:induction false} ReadOneCut(pre: seq<Byte>, f: Field, n: nat)
    requires Fits(f) && n < |Enc(f)|
    ensures ReadOne(pre + Enc(f)[..n], |pre|, KindOf(f)) == None
  {
    hide ToLE, FromLE, Pow256;
    var data, off := pre + Enc(f)[..n], |pre|;
    if f.Str? && n >= f.width {
      assert data[off..off + f.width] == ToLE(|f.bytes|, f.width);
      FromToLEExact(|f.bytes|, f.width);
    }
  }

  lemma {:induction false} ReadWritten(pre: seq<Byte>, fs: seq<Field>, rest: seq<Byte>, got: seq<Field>)
    requires forall f :: f in fs ==> Fits(f)
    ensures Read(pre + EncAll(fs) + rest, |pre|, Kinds(fs), got) == Some((got + fs, |pre| + |EncAll(fs)|))
    decreases |fs|
  {
    hide ReadOne, Enc;
    if fs == [] {
      assert got + fs == got;
    } else {
      var f, tail := fs[0], EncAll(fs[1..]);
      assert pre + EncAll(fs) + rest == pre + Enc(f) + (tail + rest) == (pre + Enc(f)) + tail + rest;
      ReadOneWritten(pre, f, tail + rest);
      ReadWritten(pre + Enc(f), fs[1..], rest, got + [f]);
      assert got + [f] + fs[1..] == got + fs;
    }
  }

  lemma {:induction false} ReadCut(pre: seq<Byte>, fs: seq<Field>, n: nat, got: seq<Field>)
    requires (forall f :: f in fs ==> Fits(f)) && n < |EncAll(fs)|
    ensures Read(pre + EncAll(fs)[..n], |pre|, Kinds(fs), got) == None
    decreases |fs|
  {
    hide ReadOne, Enc;
    var f, tail := fs[0], EncAll(fs[1..]);
    if n < |Enc(f)| {
      assert EncAll(fs)[..n] == Enc(f)[..n];
      ReadOneCut(pre, f, n);
    } else {
      var m := n - |Enc(f)|;
      assert pre + EncAll(fs)[..n] == pre + Enc(f) + tail[..m];
      ReadOneWritten(pre, f, tail[..m]);
      ReadCut(pre + Enc(f), fs[1..], m, got + [f]);
    }
  }

  lemma {:induction false} ReadFits(data: seq<Byte>, off: nat, kinds: seq<Kind>, got: seq<Field>)
    requires off <= |data| && forall f :: f in got ==> Fits(f)
    ensures var r := Read(data, off, kinds, got);
            r.Some? ==> (forall f :: f in r.value.0 ==> Fits(f)) && Kinds(r.value.0) == Kinds(got) + kinds && r.value.1 <= |data|
    decreases |kinds|
  {
    hide Fits;
    if kinds == [] {
      assert Kinds(got) + kinds == Kinds(got);
    } else {
      match ReadOne(data, off, kinds[0])
      case None =>
      case Some((f, next)) =>
        KindsAppend(got, [f]);
        assert Kinds(got) + [kinds[0]] + kinds[1..] == Kinds(got) + kinds;
        ReadFits(data, next, kinds[1..], got + [f]);
    }
  }

  lemma {:induction false} KindsAppend(fs: seq<Field>, gs: seq<Field>)
    ensures Kinds(fs + gs) == Kinds(fs) + Kinds(gs)
  {
    if fs == [] {
      assert fs + gs == gs;
    } else {
      assert (fs + gs)[1..] == fs[1..] + gs;
      KindsAppend(fs[1..], gs);
    }
  }

  // ---------- The envelope ----------

  type Trace = map<Text, Text>

  datatype Envelope = Envelope(symbol: Text, kind: Text, sequence: I64, nanos: I64,
                               json: Text, protobuf: Text, flatBuffers: Text, trace: Trace)

  const HEAD: seq<Kind> := [Sized(2), Sized(2), Number(8), Number(8), Sized(4), Sized(4), Sized(4), Number(2)]

  function Head(e: Envelope): (fs: seq<Field>)
    ensures |fs| == 8
  {
    [Str(2, e.symbol), Str(2, e.kind), Num(8, Unsigned(e.sequence)), Num(8, Unsigned(e.nanos)),
     Str(4, e.json), Str(4, e.protobuf), Str(4, e.flatBuffers), Num(2, |e.trace|)]
  }

  /** An order in which a range over the map may run: every key, once. */
  ghost predicate Enumerates(order: seq<Text>, m: Trace)
  {
    && (forall i, j :: 0 <= i < j < |order| ==> order[i] != order[j])
    && (forall k :: k in order <==> k in m)
  }

  function Entries(m: Trace, order: seq<Text>): (fs: seq<Field>)
    requires forall k :: k in order ==> k in m
    ensures |fs| == 2 * |order|
  {
    if order == [] then []
    else var n := |order| - 1; Entries(m, order[..n]) + [Str(2, order[n]), Str(2, m[order[n]])]
  }

  ghost function Encoding(e: Envelope, order: seq<Text>): seq<Byte>
    requires Enumerates(order, e.trace)
  {
    EncAll(Head(e)) + EncAll(Entries(e.trace, order))
  }

  function EntryKinds(count: nat): (ks: seq<Kind>)
    ensures |ks| == 2 * count
  {
    seq(2 * count, _ => Sized(2))
  }

  function TextOf(f: Field): Text
  {
    if f.Str? then f.bytes else []
  }

  function ValueOf(f: Field): nat
  {
    if f.Num? then f.value else 0
  }

  function ToTrace(fs: seq<Field>): Trace
  {
    if |fs| < 2 then map[]
    else var n := |fs| - 2; ToTrace(fs[..n])[TextOf(fs[n]) := TextOf(fs[n + 1])]
  }

  function FromHead(fs: seq<Field>, trace: Trace): Envelope
    requires |fs| == 8 && ValueOf(fs[2]) < TWO_64 && ValueOf(fs[3]) < TWO_64
  {
    Envelope(TextOf(fs[0]), TextOf(fs[1]), Signed(ValueOf(fs[2])), Signed(ValueOf(fs[3])),
             TextOf(fs[4]), TextOf(fs[5]), TextOf(fs[6]), trace)
  }

  /** A decoding into an envelope that already holds a trace context: no entries leave it as it was. */
  ghost function Decode(prior: Trace, data: seq<Byte>): Option<Envelope>
  {
    var head := Read(data, 0, HEAD, []);
    if head == None then None
    else
      HeadFits(data);
      var (fs, off) := head.value;
      var count := ValueOf(fs[7]);
      if count == 0 then Some(FromHead(fs, prior))
      else
        var entries := Read(data, off, EntryKinds(count), []);
        if entries == None then None else Some(FromHead(fs, ToTrace(entries.value.0)))
  }

  ghost predicate EnvelopeFits(e: Envelope)
  {
    && |e.symbol| < TWO_16 && |e.kind| < TWO_16
    && |e.json| < TWO_32 && |e.protobuf| < TWO_32 && |e.flatBuffers| < TWO_32
    && |e.trace| < TWO_16 && TraceFits(e.trace)
  }

  ghost predicate TraceFits(m: Trace)
  {
    forall k :: k in m ==> |k| < TWO_16 && |m[k]| < TWO_16
  }

  lemma {:induction false} HeadFits(data: seq<Byte>)
    ensures var r := Read(data, 0, HEAD, []);
            r.Some? ==> && |r.value.0| == 8 && r.value.1 <= |data| && Kinds(r.value.0) == HEAD
                        && (forall f :: f in r.value.0 ==> Fits(f))
                        && ValueOf(r.value.0[2]) < TWO_64 && ValueOf(r.value.0[3]) < TWO_64 && ValueOf(r.value.0[7]) < TWO_16
  {
    hide Read;
    PowersOf256();
    ReadFits(data, 0, HEAD, []);
    var r := Read(data, 0, HEAD, []);
    if r.Some? {
      var fs := r.value.0;
      assert Kinds(fs) == HEAD;
      KindsAt(fs, 2);
      KindsAt(fs, 3);
      KindsAt(fs, 7);
      assert Fits(fs[2]) && Fits(fs[3]) && Fits(fs[7]);
    }
  }

  lemma {:induction false} KindsAt(fs: seq<Field>, i: nat)
    requires i < |fs|
    ensures Kinds(fs)[i] == KindOf(fs[i])
  {
    if i == 0 {
    } else {
      KindsAt(fs[1..], i - 1);
    }
  }

  // ---------- Trace context: any order of the entries gives the map back ----------

  lemma {:induction false} EntriesAre(m: Trace, order: seq<Text>)
    requires forall k :: k in order ==> k in m
    ensures Kinds(Entries(m, order)) == EntryKinds(|order|)
    ensures TraceFits(m) ==> forall f :: f in Entries(m, order) ==> Fits(f)
  {
    if order == [] {
    } else {
      var n := |order| - 1;
      EntriesAre(m, order[..n]);
      KindsAppend(Entries(m, order[..n]), [Str(2, order[n]), Str(2, m[order[n]])]);
      PowersOf256();
    }
  }

  lemma {:induction false} ToTraceMore(fs: seq<Field>, a: Field, b: Field)
    ensures ToTrace(fs + [a, b]) == ToTrace(fs)[TextOf(a) := TextOf(b)]
  {
    assert (fs + [a, b])[..|fs|] == fs;
  }

  lemma {:induction false} InMore(order: seq<Text>, k: Text)
    requires order != []
    ensures k in order <==> k in order[..|order| - 1] || k == order[|order| - 1]
  {
    assert order == order[..|order| - 1] + [order[|order| - 1]];
  }

  lemma {:induction false} TraceOfEntry(m: Trace, order: seq<Text>, k: Text)
    requires forall x :: x in order ==> x in m
    ensures var t := ToTrace(Entries(m, order));
            (k in t <==> k in order) && (k in t ==> t[k] == m[k])
  {
    if order == [] {
    } else {
      var n := |order| - 1;
      var last := order[n];
      TraceOfEntry(m, order[..n], k);
      InMore(order, k);
      ToTraceMore(Entries(m, order[..n]), Str(2, last), Str(2, m[last]));
      hide ToTrace;
    }
  }

  lemma {:induction false} TraceOfEntries(m: Trace, order: seq<Text>)
    requires forall k :: k in order ==> k in m
    ensures var t := ToTrace(Entries(m, order));
            forall k :: (k in t <==> k in order) && (k in t ==> t[k] == m[k])
  {
    hide ToTrace, Entries;
    forall k
      ensures var t := ToTrace(Entries(m, order)); (k in t <==> k in order) && (k in t ==> t[k] == m[k])
    {
      TraceOfEntry(m, order, k);
    }
  }

  lemma {:induction false} OrderLength(order: seq<Text>, m: Trace)
    requires Enumerates(order, m)
    ensures |order| == |m|
  {
    if order == [] {
      assert m == map[] by {
        assert forall k :: k !in m;
      }
    } else {
      var n := |order| - 1;
      WithoutLast(order, m);
      OrderLength(order[..n], m - {order[n]});
    }
  }

  lemma {:induction false} WithoutLast(order: seq<Text>, m: Trace)
    requires Enumerates(order, m) && order != []
    ensures var n := |order| - 1;
            Enumerates(order[..n], m - {order[n]}) && |m| == |m - {order[n]}| + 1
  {
    var n := |order| - 1;
    var last := order[n];
    assert order == order[..n] + [last];
    assert m.Keys == (m - {last}).Keys + {last};
    assert m == (m - {last})[last := m[last]];
  }

  lemma {:induction false} EntriesEnumerate(m: Trace, order: seq<Text>)
    requires Enumerates(order, m)
    ensures ToTrace(Entries(m, order)) == m && |order| == |m|
  {
    TraceOfEntries(m, order);
    OrderLength(order, m);
  }

  // ---------- Head ----------

  lemma {:induction false} HeadIs(e: Envelope)
    ensures Kinds(Head(e)) == HEAD && FromHead(Head(e), e.trace) == e && ValueOf(Head(e)[7]) == |e.trace|
    ensures EnvelopeFits(e) ==> forall f :: f in Head(e) ==> Fits(f)
  {
    PowersOf256();
    forall i: nat | i < 8
      ensures Kinds(Head(e))[i] == HEAD[i]
    {
      KindsAt(Head(e), i);
    }
  }

  // ---------- The envelope: round trip, prefixes, trailing bytes ----------

  /** A written envelope is read back whatever the map's order and whatever follows it. */
  lemma {:induction false} RoundTrip(e: Envelope, order: seq<Text>, prior: Trace, rest: seq<Byte>)
    requires EnvelopeFits(e) && Enumerates(order, e.trace)
    ensures Decode(prior, Encoding(e, order) + rest) == Some(if e.trace == map[] then e.(trace := prior) else e)
  {
    hide Read, EncAll, Head, EnvelopeFits;
    var head, entries := EncAll(Head(e)), EncAll(Entries(e.trace, order));
    HeadIs(e);
    ReadHead(e, entries + rest);
    assert Encoding(e, order) + rest == head + (entries + rest);
    ReadEntries(e, order, rest);
    EntriesEnumerate(e.trace, order);
  }

  lemma {:induction false} ReadHead(e: Envelope, rest: seq<Byte>)
    requires EnvelopeFits(e)
    ensures Read(EncAll(Head(e)) + rest, 0, HEAD, []) == Some((Head(e), |EncAll(Head(e))|))
  {
    hide Read, EncAll, EnvelopeFits, Head;
    HeadIs(e);
    ReadWritten([], Head(e), rest, []);
    assert [] + EncAll(Head(e)) + rest == EncAll(Head(e)) + rest;
    assert [] + Head(e) == Head(e);
  }

  lemma {:induction false} ReadEntries(e: Envelope, order: seq<Text>, rest: seq<Byte>)
    requires EnvelopeFits(e) && Enumerates(order, e.trace)
    ensures var head := EncAll(Head(e));
            var entries := Entries(e.trace, order);
            var r := Read(head + (EncAll(entries) + rest), |head|, EntryKinds(|e.trace|), []);
            r.Some? && r.value.0 == entries
  {
    hide Read, EncAll, Head;
    var head, entries := EncAll(Head(e)), Entries(e.trace, order);
    OrderLength(order, e.trace);
    EntriesAre(e.trace, order);
    ReadWritten(head, entries, rest, []);
    assert head + EncAll(entries) + rest == head + (EncAll(entries) + rest);
    assert [] + entries == entries;
  }

  /** No strict prefix of an encoding is accepted. */
  lemma {:induction false} PrefixRejected(e: Envelope, order: seq<Text>, prior: Trace, n: nat)
    requires EnvelopeFits(e) && Enumerates(order, e.trace) && n < |Encoding(e, order)|
    ensures Decode(prior, Encoding(e, order)[..n]) == None
  {
    hide Read, EncAll, Head, Entries, Enumerates, Fits, ToTrace, FromHead;
    EnumeratedIn(e.trace, order);
    var head, entries := EncAll(Head(e)), EncAll(Entries(e.trace, order));
    HeadIs(e);
    if n < |head| {
      ReadCut([], Head(e), n, []);
      assert [] + head[..n] == Encoding(e, order)[..n];
    } else {
      var m := n - |head|;
      OrderLength(order, e.trace);
      EntriesAre(e.trace, order);
      ReadHead(e, entries[..m]);
      assert Encoding(e, order)[..n] == head + entries[..m];
      ReadCut(head, Entries(e.trace, order), m, []);
      NothingEncoded(e.trace, order);
    }
  }

  lemma {:induction false} NothingEncoded(m: Trace, order: seq<Text>)
    requires forall k :: k in order ==> k in m
    ensures order == [] ==> EncAll(Entries(m, order)) == []
  {
  }

  // ---------- What can be decoded at all ----------

  lemma {:induction false} TraceOfFitting(fs: seq<Field>, count: nat)
    requires Kinds(fs) == EntryKinds(count) && (forall f :: f in fs ==> Fits(f))
    ensures TraceFits(ToTrace(fs)) && |ToTrace(fs)| <= count
  {
    if count == 0 {
    } else {
      var n := |fs| - 2;
      assert fs == fs[..n] + fs[n..];
      KindsAppend(fs[..n], fs[n..]);
      assert Kinds(fs[..n]) == Kinds(fs)[..n] == EntryKinds(count - 1);
      TraceOfFitting(fs[..n], count - 1);
      KindsAt(fs, n);
      KindsAt(fs, n + 1);
      PowersOf256();
      assert Fits(fs[n]) && Fits(fs[n + 1]);
    }
  }

  lemma {:induction false} DecodedFits(data: seq<Byte>)
    ensures var r := Decode(map[], data);
            r.Some? ==> EnvelopeFits(r.value)
  {
    hide Read;
    HeadFits(data);
    var head := Read(data, 0, HEAD, []);
    if head.Some? {
      var (fs, off) := head.value;
      var count := ValueOf(fs[7]);
      ReadFits(data, off, EntryKinds(count), []);
      var entries := Read(data, off, EntryKinds(count), []);
      if entries.Some? {
        assert Kinds([]) + EntryKinds(count) == EntryKinds(count);
        TraceOfFitting(entries.value.0, count);
      }
      TextsFit(fs);
    }
  }

  lemma {:induction false} TextsFit(fs: seq<Field>)
    requires Kinds(fs) == HEAD && (forall f :: f in fs ==> Fits(f))
    ensures |TextOf(fs[0])| < TWO_16 && |TextOf(fs[1])| < TWO_16
    ensures |TextOf(fs[4])| < TWO_32 && |TextOf(fs[5])| < TWO_32 && |TextOf(fs[6])| < TWO_32
  {
    PowersOf256();
    forall i: nat | i < 8
      ensures KindOf(fs[i]) == HEAD[i] && Fits(fs[i])
    {
      KindsAt(fs, i);
    }
  }

  /** Into a fresh envelope, decoding undoes encoding exactly when every length fits its prefix. */
  lemma {:induction false} RoundTripIff(e: Envelope, order: seq<Text>, rest: seq<Byte>)
    requires Enumerates(order, e.trace)
    ensures Decode(map[], Encoding(e, order) + rest) == Some(e) <==> EnvelopeFits(e)
  {
    hide Decode, Encoding, EnvelopeFits;
    if EnvelopeFits(e) {
      RoundTrip(e, order, map[], rest);
    }
    DecodedFits(Encoding(e, order) + rest);
  }

  // ---------- Writing into the buffer ----------

  method PutNumber(buf: array<Byte>, off: nat, width: nat, v: nat) returns (next: nat)
    requires off + width <= buf.Length
    modifies buf
    ensures next == off + width && buf[..next] == old(buf[..off]) + Enc(Num(width, v))
  {
    ghost var was := buf[..off];
    PutLE(buf, off, width, v);
    next := off + width;
    assert buf[..next] == buf[..][..next] == was + ToLE(v, width);
  }

  method PutText(buf: array<Byte>, off: nat, width: nat, s: Text) returns (next: nat)
    requires off + width + |s| <= buf.Length
    modifies buf
    ensures next == off + width + |s| && buf[..next] == old(buf[..off]) + Enc(Str(width, s))
  {
    ghost var was := buf[..off];
    var mid := PutNumber(buf, off, width, |s|);
    ghost var written := buf[..mid];
    PutBytes(buf, mid, s);
    next := mid + |s|;
    assert buf[..next] == buf[..][..next] == written + s;
    assert written + s == was + Enc(Str(width, s));
  }

  lemma {:induction false} EncAllAppend(fs: seq<Field>, gs: seq<Field>)
    ensures EncAll(fs + gs) == EncAll(fs) + EncAll(gs)
  {
    hide Enc;
    if fs == [] {
      assert fs + gs == gs;
    } else {
      assert (fs + gs)[1..] == fs[1..] + gs;
      EncAllAppend(fs[1..], gs);
    }
  }

  lemma {:induction false} EncAllSnoc(fs: seq<Field>, f: Field)
    ensures EncAll(fs + [f]) == EncAll(fs) + Enc(f)
  {
    EncAllAppend(fs, [f]);
    assert [f][1..] == [];
    assert EncAll([f]) == Enc(f) + EncAll([f][1..]);
  }

  // ---------- The entries take the same room in whatever order they are visited ----------

  function Cost(m: Trace, k: Text): nat
  {
    if k in m then (2 + |k|) + (2 + |m[k]|) else 0
  }

  function Room(m: Trace, order: seq<Text>): nat
  {
    if order == [] then 0 else Room(m, order[..|order| - 1]) + Cost(m, order[|order| - 1])
  }

  lemma {:induction false} RoomIsExact(m: Trace, order: seq<Text>)
    requires forall k :: k in order ==> k in m
    ensures Room(m, order) == |EncAll(Entries(m, order))|
  {
    if order == [] {
    } else {
      var n := |order| - 1;
      RoomIsExact(m, order[..n]);
      OneMoreEntry(m, order, n);
      assert order[..n + 1] == order;
    }
  }

  lemma {:induction false} OneMoreEntry(m: Trace, order: seq<Text>, i: nat)
    requires i < |order| && forall k :: k in order ==> k in m
    ensures EncAll(Entries(m, order[..i + 1])) == EncAll(Entries(m, order[..i])) + Enc(Str(2, order[i])) + Enc(Str(2, m[order[i]]))
  {
    hide EncAll, Enc;
    var done, k := order[..i], order[i];
    assert order[..i + 1][..i] == done;
    assert Entries(m, order[..i + 1]) == Entries(m, done) + [Str(2, k)] + [Str(2, m[k])];
    EncAllSnoc(Entries(m, done) + [Str(2, k)], Str(2, m[k]));
    EncAllSnoc(Entries(m, done), Str(2, k));
  }

  lemma {:induction false} RoomWithout(m: Trace, a: seq<Text>, i: nat)
    requires i < |a|
    ensures Room(m, a) == Room(m, a[..i] + a[i + 1..]) + Cost(m, a[i])
  {
    hide Cost;
    var n := |a| - 1;
    if i == n {
      assert a[..i] + a[i + 1..] == a[..n];
    } else {
      RoomWithout(m, a[..n], i);
      assert a[..n][..i] + a[..n][i + 1..] == (a[..i] + a[i + 1..])[..n - 1];
    }
  }

  lemma {:induction false} RoomAnyOrder(m: Trace, a: seq<Text>, b: seq<Text>)
    requires |a| == |b| && forall i :: 0 <= i < |b| ==> b[i] in a
    requires forall i, j :: 0 <= i < j < |b| ==> b[i] != b[j]
    ensures Room(m, a) == Room(m, b)
  {
    hide Cost;
    if b == [] {
    } else {
      var n := |b| - 1;
      var i := Found(a, b[n]);
      RoomWithout(m, a, i);
      forall j | 0 <= j < n
        ensures b[j] in a[..i] + a[i + 1..]
      {
        StillIn(a, i, b[j]);
      }
      RoomAnyOrder(m, a[..i] + a[i + 1..], b[..n]);
    }
  }

  lemma {:induction false} Found(a: seq<Text>, k: Text) returns (i: nat)
    requires k in a
    ensures i < |a| && a[i] == k
  {
    i :| i < |a| && a[i] == k;
  }

  lemma {:induction false} StillIn(a: seq<Text>, i: nat, k: Text)
    requires i < |a| && k in a && k != a[i]
    ensures k in a[..i] + a[i + 1..]
  {
    var j := Found(a, k);
    assert (a[..i] + a[i + 1..])[if j < i then j else j - 1] == k;
  }

  lemma {:induction false} RoomOfOrders(m: Trace, a: seq<Text>, b: seq<Text>)
    requires Enumerates(a, m) && Enumerates(b, m)
    ensures Room(m, a) == |EncAll(Entries(m, b))|
  {
    hide EncAll, Entries, Room;
    OrderLength(a, m);
    OrderLength(b, m);
    assert forall i :: 0 <= i < |b| ==> b[i] in b;
    RoomAnyOrder(m, a, b);
    RoomIsExact(m, b);
  }

  lemma {:induction false} HeadBytes(e: Envelope)
    ensures EncAll(Head(e)) == Enc(Str(2, e.symbol)) + Enc(Str(2, e.kind)) + Enc(Num(8, Unsigned(e.sequence))) + Enc(Num(8, Unsigned(e.nanos)))
                               + Enc(Str(4, e.json)) + Enc(Str(4, e.protobuf)) + Enc(Str(4, e.flatBuffers)) + Enc(Num(2, |e.trace|))
  {
    hide Enc, EncAll;
    var fs := Head(e);
    EncPrefix(fs, 0);
    EncPrefix(fs, 1);
    EncPrefix(fs, 2);
    EncPrefix(fs, 3);
    EncPrefix(fs, 4);
    EncPrefix(fs, 5);
    EncPrefix(fs, 6);
    EncPrefix(fs, 7);
    NothingToEncode(fs);
    assert fs[..8] == fs;
  }

  lemma {:induction false} EncPrefix(fs: seq<Field>, i: nat)
    requires i < |fs|
    ensures EncAll(fs[..i + 1]) == EncAll(fs[..i]) + Enc(fs[i])
  {
    hide Enc, EncAll;
    assert fs[..i + 1] == fs[..i] + [fs[i]];
    EncAllSnoc(fs[..i], fs[i]);
  }

  lemma {:induction false} NothingToEncode(fs: seq<Field>)
    ensures EncAll(fs[..0]) == []
  {
  }

  /**
   MarshalBinary. The map is ranged over twice, once to size the buffer and once to fill it, each
   time in an order of its own; the buffer is filled exactly, and never overrun.
   */
  method MarshalBinary(e: Envelope, sizing: seq<Text>, writing: seq<Text>) returns (buf: array<Byte>)
    requires Enumerates(sizing, e.trace) && Enumerates(writing, e.trace)
    ensures fresh(buf) && buf[..] == Encoding(e, writing)
  {
    hide Enc, EncAll, Entries, Room, Enumerates;
    var entries := SizeEntries(e.trace, sizing);
    var size := SizeHead(e) + entries;
    RoomOfOrders(e.trace, sizing, writing);
    buf := new Byte[size];
    var off := FillHead(e, buf);
    EnumeratedIn(e.trace, writing);
    FillEntries(e.trace, writing, buf, off);
  }

  lemma {:induction false} EnumeratedIn(m: Trace, order: seq<Text>)
    requires Enumerates(order, m)
    ensures forall k :: k in order ==> k in m
  {
  }

  function SizeHead(e: Envelope): (n: nat)
    ensures n == |EncAll(Head(e))|
  {
    HeadBytes(e);
    (2 + |e.symbol|) + (2 + |e.kind|) + (8 + 8) + (4 + |e.json|) + (4 + |e.protobuf|) + (4 + |e.flatBuffers|) + 2
  }

  method SizeEntries(m: Trace, order: seq<Text>) returns (size: nat)
    requires Enumerates(order, m)
    ensures size == Room(m, order)
  {
    size := 0;
    for i := 0 to |order|
      invariant size == Room(m, order[..i])
    {
      assert order[..i + 1][..i] == order[..i];
      size := size + (2 + |order[i]|) + (2 + |m[order[i]]|);
    }
    assert order[..|order|] == order;
  }

  method FillHead(e: Envelope, buf: array<Byte>) returns (off: nat)
    requires |EncAll(Head(e))| <= buf.Length
    modifies buf
    ensures off <= buf.Length && buf[..off] == EncAll(Head(e))
  {
    hide Enc, EncAll;
    HeadBytes(e);
    HeadRoom(e);
    off := PutText(buf, 0, 2, e.symbol);
    off := PutText(buf, off, 2, e.kind);
    off := PutNumber(buf, off, 8, Unsigned(e.sequence));
    off := PutNumber(buf, off, 8, Unsigned(e.nanos));
    off := FillPayloads(e, buf, off);
  }

  method FillPayloads(e: Envelope, buf: array<Byte>, start: nat) returns (off: nat)
    requires start + (4 + |e.json|) + (4 + |e.protobuf|) + (4 + |e.flatBuffers|) + 2 <= buf.Length
    modifies buf
    ensures off <= buf.Length
    ensures buf[..off] == old(buf[..start]) + Enc(Str(4, e.json)) + Enc(Str(4, e.protobuf)) + Enc(Str(4, e.flatBuffers)) + Enc(Num(2, |e.trace|))
  {
    hide Enc;
    off := PutText(buf, start, 4, e.json);
    off := PutText(buf, off, 4, e.protobuf);
    off := PutText(buf, off, 4, e.flatBuffers);
    off := PutNumber(buf, off, 2, |e.trace|);
  }

  lemma {:induction false} HeadRoom(e: Envelope)
    ensures |EncAll(Head(e))| == SizeHead(e)
  {
  }

  method FillEntries(m: Trace, order: seq<Text>, buf: array<Byte>, start: nat)
    requires (forall k :: k in order ==> k in m) && buf.Length == start + |EncAll(Entries(m, order))|
    modifies buf
    ensures buf[..] == old(buf[..start]) + EncAll(Entries(m, order))
  {
    hide Enc, EncAll, Entries;
    var off: nat := start;
    ghost var head := buf[..start];
    NothingEncoded(m, order[..0]);
    for i := 0 to |order|
      invariant off <= buf.Length && buf[..off] == head + EncAll(Entries(m, order[..i]))
    {
      var k := order[i];
      OneMoreEntry(m, order, i);
      EntriesGrow(m, order, i + 1);
      EntrySize(k, m[k]);
      off := PutText(buf, off, 2, k);
      off := PutText(buf, off, 2, m[k]);
    }
    assert order[..|order|] == order;
    assert buf[..off] == buf[..];
  }

  lemma {:induction false} EntrySize(k: Text, v: Text)
    ensures |Enc(Str(2, k))| == 2 + |k| && |Enc(Str(2, v))| == 2 + |v|
  {
  }

  lemma {:induction false} EntriesGrow(m: Trace, order: seq<Text>, i: nat)
    requires i <= |order| && forall k :: k in order ==> k in m
    ensures |EncAll(Entries(m, order[..i]))| <= |EncAll(Entries(m, order))|
    decreases |order| - i
  {
    hide EncAll, Entries, Enc;
    if i == |order| {
      assert order[..i] == order;
    } else {
      OneMoreEntry(m, order, i);
      EntriesGrow(m, order, i + 1);
    }
  }

  // ---------- Reading ----------

  method TakeNumber(data: seq<Byte>, off: nat, width: nat) returns (ok: bool, v: nat, next: nat)
    requires off <= |data|
    ensures ReadOne(data, off, Number(width)) == if ok then Some((Num(width, v), next)) else None
    ensures next <= |data| && (ok ==> next == off + width)
  {
    if |data| < off + width {
      return false, 0, off;
    }
    return true, FromLE(data[off..off + width]), off + width;
  }

  method TakeText(data: seq<Byte>, off: nat, width: nat) returns (ok: bool, s: Text, next: nat)
    requires off <= |data|
    ensures ReadOne(data, off, Sized(width)) == if ok then Some((Str(width, s), next)) else None
    ensures next <= |data|
  {
    var n, mid;
    ok, n, mid := TakeNumber(data, off, width);
    if !ok || |data| < mid + n {
      return false, [], off;
    }
    return true, data[mid..mid + n], mid + n;
  }

  /** Reading one more field: what is left to read after it, or the whole reading fails. */
  lemma {:induction false} ReadNext(data: seq<Byte>, off: nat, kinds: seq<Kind>, got: seq<Field>)
    requires |got| < |kinds|
    ensures Read(data, off, kinds[|got|..], got) ==
            match ReadOne(data, off, kinds[|got|])
            case None => None
            case Some((f, next)) => Read(data, next, kinds[|got| + 1..], got + [f])
  {
    assert kinds[|got|..][1..] == kinds[|got| + 1..];
  }

  class Receiver {
    var symbol: Text
    var kind: Text
    var sequence: I64
    var nanos: I64
    var json: Text
    var protobuf: Text
    var flatBuffers: Text
    var trace: Trace

    function Value(): Envelope
      reads this
    {
      Envelope(symbol, kind, sequence, nanos, json, protobuf, flatBuffers, trace)
    }

    constructor ()
      ensures trace == map[]
    {
      symbol, kind, sequence, nanos, json, protobuf, flatBuffers, trace := [], [], 0, 0, [], [], [], map[];
    }

    /** UnmarshalBinary: accepts exactly the decodable bytes, and then holds what they encode. */
    method UnmarshalBinary(data: seq<Byte>) returns (ok: bool)
      modifies this
      ensures ok == Decode(old(trace), data).Some?
      ensures ok ==> Value() == Decode(old(trace), data).value
    {
      hide Read, ReadOne, Fits;
      HeadFits(data);
      var count, off;
      ghost var fs;
      ok, count, off, fs := TakeHead(data);
      if !ok {
        return;
      }
      if count > 0 {
        trace := map[];
        ok := TakeEntries(data, off, count);
      }
    }

    /** The eight fields before the trace entries, one after another. */
    method TakeHead(data: seq<Byte>) returns (ok: bool, count: nat, off: nat, ghost fs: seq<Field>)
      modifies this`symbol, this`kind, this`sequence, this`nanos, this`json, this`protobuf, this`flatBuffers
      ensures Read(data, 0, HEAD, []) == if ok then Some((fs, off)) else None
      ensures ok ==> off <= |data| && |fs| == 8 && ValueOf(fs[2]) < TWO_64 && ValueOf(fs[3]) < TWO_64
      ensures ok ==> Value() == FromHead(fs, old(trace)) && count == ValueOf(fs[7])
    {
      hide ReadOne, Read;
      fs, count := [], 0;
      assert HEAD[0..] == HEAD;
      ReadNext(data, 0, HEAD, fs);
      ok, symbol, off := TakeText(data, 0, 2);
      if !ok { return; }
      fs := fs + [Str(2, symbol)];
      ReadNext(data, off, HEAD, fs);
      ok, kind, off := TakeText(data, off, 2);
      if !ok { return; }
      fs := fs + [Str(2, kind)];
      ok, off, fs := TakeStamps(data, off, fs);
      if !ok { return; }
      ok, count, off, fs := TakePayloads(data, off, fs);
    }

    method TakeStamps(data: seq<Byte>, start: nat, ghost got: seq<Field>) returns (ok: bool, off: nat, ghost fs: seq<Field>)
      requires start <= |data| && |got| == 2
      modifies this`sequence, this`nanos
      ensures Read(data, start, HEAD[2..], got) == if ok then Read(data, off, HEAD[4..], fs) else None
      ensures ok ==> off <= |data| && fs == got + [Num(8, Unsigned(sequence)), Num(8, Unsigned(nanos))]
    {
      hide ReadOne, Read;
      PowersOf256();
      var v;
      fs := got;
      ReadNext(data, start, HEAD, fs);
      ok, v, off := TakeNumber(data, start, 8);
      if !ok { return; }
      FieldFits(data, start, Number(8));
      sequence := Signed(v);
      fs := fs + [Num(8, v)];
      ReadNext(data, off, HEAD, fs);
      FieldFits(data, off, Number(8));
      ok, v, off := TakeNumber(data, off, 8);
      if !ok { return; }
      nanos := Signed(v);
      fs := fs + [Num(8, v)];
    }

    method TakePayloads(data: seq<Byte>, start: nat, ghost got: seq<Field>) returns (ok: bool, count: nat, off: nat, ghost fs: seq<Field>)
      requires start <= |data| && |got| == 4
      modifies this`json, this`protobuf, this`flatBuffers
      ensures Read(data, start, HEAD[4..], got) == if ok then Some((fs, off)) else None
      ensures ok ==> off <= |data| && fs == got + [Str(4, json), Str(4, protobuf), Str(4, flatBuffers), Num(2, count)]
    {
      hide ReadOne, Read;
      off, count := start, 0;
      fs := got;
      ReadNext(data, off, HEAD, fs);
      ok, json, off := TakeText(data, off, 4);
      if !ok { return; }
      fs := fs + [Str(4, json)];
      ReadNext(data, off, HEAD, fs);
      ok, protobuf, off := TakeText(data, off, 4);
      if !ok { return; }
      fs := fs + [Str(4, protobuf)];
      ReadNext(data, off, HEAD, fs);
      ok, flatBuffers, off := TakeText(data, off, 4);
      if !ok { return; }
      fs := fs + [Str(4, flatBuffers)];
      ReadNext(data, off, HEAD, fs);
      ok, count, off := TakeNumber(data, off, 2);
      if !ok { return; }
      fs := fs + [Num(2, count)];
      ReadNone(data, off, HEAD, fs);
    }

    method TakeEntries(data: seq<Byte>, start: nat, count: nat) returns (ok: bool)
      requires start <= |data| && trace == map[]
      modifies this`trace
      ensures var r := Read(data, start, EntryKinds(count), []);
              ok == r.Some? && (ok ==> trace == ToTrace(r.value.0))
    {
      hide ReadOne, Read;
      ghost var kinds, got := EntryKinds(count), [];
      var off: nat := start;
      assert kinds[0..] == kinds;
      for i := 0 to count
        invariant off <= |data| && |got| == 2 * i && trace == ToTrace(got)
        invariant Read(data, start, kinds, []) == Read(data, off, kinds[|got|..], got)
      {
        var k, v;
        ReadNext(data, off, kinds, got);
        ok, k, off := TakeText(data, off, 2);
        if !ok { return; }
        ReadNext(data, off, kinds, got + [Str(2, k)]);
        ok, v, off := TakeText(data, off, 2);
        if !ok { return; }
        trace := trace[k := v];
        ghost var before := got;
        got := got + [Str(2, k)] + [Str(2, v)];
        assert got[..|got| - 2] == before;
      }
      ReadNone(data, off, kinds, got);
      ok := true;
    }
  }

  lemma {:induction false} ReadNone(data: seq<Byte>, off: nat, kinds: seq<Kind>, got: seq<Field>)
    requires |got| == |kinds|
    ensures Read(data, off, kinds[|got|..], got) == Some((got, off))
  {
  }

  lemma {:induction false} FieldFits(data: seq<Byte>, off: nat, kind: Kind)
    ensures var r := ReadOne(data, off, kind);
            r.Some? ==> ValueOf(r.value.0) < Pow256(kind.width)
  {
  }
}
