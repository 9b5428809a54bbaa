/**
 The on-disk record of the write-ahead log (internal/wal/writer.go, reader.go):

   8 sequence | 8 timestamp | 2 topic length | 4 payload length | topic | payload | 4 CRC-32

 `Encode` is what the writer appends, `Parse` is one step of the reader, and
 `ReadAll` is the reader run until it stops.
 */
module Record {
  import opened Bytes
  import opened Checksum
  import opened Framing

  datatype Message = Message(sequence: U64, timestamp: I64, topic: seq<Byte>, kind: seq<Byte>, payload: seq<Byte>)

  const HEADER_BYTES := 22
  const CRC_BYTES := 4
  const MAX_TOPIC := 65535

  /** The writer rejects longer topics; a longer payload is accepted but its length field wraps. */
  predicate Storable(m: Message)
  {
    |m.topic| <= MAX_TOPIC && |m.payload| < TWO_32
  }

  /** What survives storage: everything but the event type. */
  function Stored(m: Message): Message
  {
    m.(kind := [])
  }

  function StoredAll(ms: seq<Message>): seq<Message>
  {
    Map(Stored, ms)
  }

  function Header(m: Message): (h: seq<Byte>)
    ensures |h| == HEADER_BYTES
  {
    ToLE(m.sequence, 8) + ToLE(Unsigned(m.timestamp), 8) + ToLE(|m.topic|, 2) + ToLE(|m.payload|, 4)
  }

  /** The bytes the checksum covers. */
  function Covered(m: Message): seq<Byte>
  {
    Header(m) + m.topic + m.payload
  }

  function Encode(m: Message): (s: seq<Byte>)
    ensures |s| == HEADER_BYTES + |m.topic| + |m.payload| + CRC_BYTES
  {
    Covered(m) + ToLE(Crc32(Covered(m)), CRC_BYTES)
  }

  function EncodeAll(ms: seq<Message>): seq<Byte>
  {
    Concat(Encode, ms)
  }

  // ---------- Reading ----------

  function BodyLen(h: seq<Byte>): nat
    requires |h| >= HEADER_BYTES
  {
    FromLE(h[16..18]) + FromLE(h[18..22])
  }

  function Decoded(b: seq<Byte>): (m: Message)
    requires |b| >= HEADER_BYTES && |b| >= HEADER_BYTES + BodyLen(b)
    ensures |m.payload| < TWO_32
  {
    PowersOf256();
    var t := HEADER_BYTES + FromLE(b[16..18]);
    Message(FromLE(b[0..8]), Signed(FromLE(b[8..16])), b[HEADER_BYTES..t], [], b[t..HEADER_BYTES + BodyLen(b)])
  }

  /** One LogReader.Next over the unread bytes `b`. */
  function Parse(b: seq<Byte>): (p: Parsed<Message>)
    ensures p.Parsed? ==> HEADER_BYTES + CRC_BYTES <= p.size <= |b|
  {
    if b == [] then Eof
    else if |b| < HEADER_BYTES then Torn
    else
      var body := HEADER_BYTES + BodyLen(b);
      if |b| < body + CRC_BYTES then Torn
      else if FromLE(b[body..body + CRC_BYTES]) != Crc32(b[..body]) then Torn
      else Parsed(Decoded(b), body + CRC_BYTES)
  }

  /** The messages a reader returns before it stops, and how it stops. */
  function Messages(b: seq<Byte>): (seq<Message>, End)
  {
    ReadAll(Parse, b)
  }

  // ---------- Header fields ----------

  lemma {:induction false} HeaderSlices(m: Message, rest: seq<Byte>)
    ensures var b := Header(m) + rest;
            && b[0..8] == ToLE(m.sequence, 8)
            && b[8..16] == ToLE(Unsigned(m.timestamp), 8)
            && b[16..18] == ToLE(|m.topic|, 2)
            && b[18..22] == ToLE(|m.payload|, 4)
  {
  }

  lemma {:induction false} HeaderFields(m: Message, rest: seq<Byte>)
    requires Storable(m)
    ensures var b := Header(m) + rest;
            && FromLE(b[0..8]) == m.sequence
            && FromLE(b[8..16]) == Unsigned(m.timestamp)
            && FromLE(b[16..18]) == |m.topic|
            && FromLE(b[18..22]) == |m.payload|
  {
    HeaderSlices(m, rest);
    PowersOf256();
    FromToLEExact(m.sequence, 8);
    FromToLEExact(Unsigned(m.timestamp), 8);
    FromToLEExact(|m.topic|, 2);
    FromToLEExact(|m.payload|, 4);
  }

  /** Topic and payload follow the header, and the checksum covers everything before it. */
  lemma {:induction false} BodyBytes(m: Message)
    ensures var b, t, body := Encode(m), 22 + |m.topic|, 22 + |m.topic| + |m.payload|;
            b[22..t] == m.topic && b[t..body] == m.payload && b[body..] == ToLE(Crc32(b[..body]), 4)
  {
    hide ToLE, Crc32;
    assert Encode(m)[..22 + |m.topic| + |m.payload|] == Covered(m);
  }

  /** A whole record followed by anything is read back, minus its type. */
  lemma {:induction false} ParseWhole(m: Message, rest: seq<Byte>)
    requires Storable(m)
    ensures Parse(Encode(m) + rest) == Parsed(m.(kind := []), |Encode(m)|)
  {
    hide ToLE, FromLE, Crc32;
    var b := Encode(m) + rest;
    var crc := ToLE(Crc32(Covered(m)), CRC_BYTES);
    var tail := m.topic + m.payload + crc + rest;
    assert b == Header(m) + tail;
    HeaderFields(m, tail);
    var body := HEADER_BYTES + BodyLen(b);
    assert b[..body] == Covered(m);
    assert b[body..body + CRC_BYTES] == crc;
    PowersOf256();
    FromToLEExact(Crc32(Covered(m)), CRC_BYTES);
    assert b[HEADER_BYTES..HEADER_BYTES + |m.topic|] == m.topic;
    assert b[HEADER_BYTES + |m.topic|..body] == m.payload;
  }

  /** A record cut anywhere strictly inside is a torn tail, never a message. */
  lemma {:induction false} ParseCut(m: Message, n: nat)
    requires Storable(m) && 0 < n < |Encode(m)|
    ensures Parse(Encode(m)[..n]) == Torn
  {
    if n >= HEADER_BYTES {
      var b := Encode(m)[..n];
      var rest := b[HEADER_BYTES..];
      assert b == Header(m) + rest;
      HeaderFields(m, rest);
    }
  }

  /** A single record survives storage exactly when its payload length fits the four-byte field. */
  lemma {:induction false} RoundTripIff(m: Message)
    requires |m.topic| <= MAX_TOPIC
    ensures Parse(Encode(m)) == Parsed(m.(kind := []), |Encode(m)|) <==> |m.payload| < TWO_32
  {
    if |m.payload| < TWO_32 {
      ParseWhole(m, []);
      assert Encode(m) + [] == Encode(m);
    }
  }

  // ---------- Damaged records ----------

  /** A record with one byte changed, other than in its length fields, is a torn tail. */
  lemma {:induction false} ParseDamaged(m: Message, rest: seq<Byte>, i: nat, b: Byte)
    requires Storable(m) && i < |Encode(m)| && !(16 <= i < 22) && b != Encode(m)[i]
    ensures Parse(Encode(m)[i := b] + rest) == Torn
  {
    hide ToLE, FromLE, Crc32;
    var whole, d := Encode(m) + rest, Encode(m)[i := b] + rest;
    var crc, body := ToLE(Crc32(Covered(m)), CRC_BYTES), HEADER_BYTES + |m.topic| + |m.payload|;
    assert whole == Header(m) + (m.topic + m.payload + crc + rest);
    HeaderFields(m, m.topic + m.payload + crc + rest);
    assert d[16..18] == whole[16..18] && d[18..22] == whole[18..22];
    PowersOf256();
    FromToLEExact(Crc32(Covered(m)), CRC_BYTES);
    if i < body {
      assert d[..body] == Covered(m)[i := b] && d[body..body + CRC_BYTES] == crc;
      OneByteShows(Covered(m), i, b);
    } else {
      assert d[..body] == Covered(m) && d[body..body + CRC_BYTES] == crc[i - body := b];
      if FromLE(crc[i - body := b]) == FromLE(crc) {
        FromLEInjective(crc[i - body := b], crc);
      }
    }
  }

  // ---------- Whole files ----------

  ghost predicate AllStorable(ms: seq<Message>)
  {
    forall i :: 0 <= i < |ms| ==> Storable(ms[i])
  }

  /** The record format meets the framing requirements, so the torn-tail theorem applies to it. */
  lemma {:induction false} RecordsFrame()
    ensures Frames(Encode, Parse, Stored, Storable)
  {
    forall m, rest | Storable(m)
      ensures Parse(Encode(m) + rest) == Parsed(Stored(m), |Encode(m)|)
    {
      ParseWhole(m, rest);
    }
    forall m, n: int | Storable(m) && 0 < n < |Encode(m)|
      ensures Parse(Encode(m)[..n]) == Torn
    {
      ParseCut(m, n);
    }
  }

  /**
   For every list of messages and every byte prefix of the log that holds them, the reader
   returns exactly the messages lying wholly inside the prefix, then stops cleanly on a
   record boundary and with a corrupted tail anywhere else.
   */
  lemma {:induction false} LogPrefix(ms: seq<Message>, n: nat, k: nat)
    requires AllStorable(ms) && WhollyInside(Encode, ms, n, k)
    ensures Messages(EncodeAll(ms)[..n]) ==
            (StoredAll(ms[..k]), if n == |EncodeAll(ms[..k])| then CleanEnd else CorruptedTail)
  {
    RecordsFrame();
    TornTail(Encode, Parse, Stored, Storable, ms, n, k);
  }

  /** Reading on from the start of record j, in a log cut after n bytes. */
  lemma {:induction false} LogSuffix(ms: seq<Message>, n: nat, k: nat, j: nat)
    requires AllStorable(ms) && WhollyInside(Encode, ms, n, k) && j <= k
    ensures |EncodeAll(ms[..j])| <= n <= |EncodeAll(ms)|
    ensures Messages(EncodeAll(ms)[..n][|EncodeAll(ms[..j])|..]).0 == StoredAll(ms[j..k])
  {
    RecordsFrame();
    ReadFromBoundary(Encode, Parse, Stored, Storable, ms, n, k, j);
  }

  /** A log with one byte of record k changed, other than in its length fields, reads as the records before it. */
  lemma {:induction false} LogDamaged(ms: seq<Message>, k: nat, i: nat, b: Byte)
    requires AllStorable(ms) && k < |ms| && i < |Encode(ms[k])| && !(16 <= i < 22) && b != Encode(ms[k])[i]
    ensures |EncodeAll(ms[..k])| + i < |EncodeAll(ms)|
    ensures Messages(EncodeAll(ms)[|EncodeAll(ms[..k])| + i := b]) == (StoredAll(ms[..k]), CorruptedTail)
  {
    hide Encode, Parse;
    RecordsFrame();
    var front, here, after := EncodeAll(ms[..k]), Encode(ms[k]), EncodeAll(ms[k + 1..]);
    ConcatSplit(Encode, ms, k);
    assert ms[k..][1..] == ms[k + 1..];
    assert EncodeAll(ms) == front + (here + after);
    assert EncodeAll(ms)[|front| + i := b] == front + (here[i := b] + after);
    ParseDamaged(ms[k], after, i, b);
    ReadThenTorn(Encode, Parse, Stored, Storable, ms[..k], here[i := b] + after);
  }

  /** The whole log reads back as the whole list. */
  lemma {:induction false} RoundTripAll(ms: seq<Message>)
    requires AllStorable(ms)
    ensures Messages(EncodeAll(ms)) == (StoredAll(ms), CleanEnd)
  {
    assert ms[..|ms|] == ms;
    assert EncodeAll(ms)[..|EncodeAll(ms)|] == EncodeAll(ms);
    LogPrefix(ms, |EncodeAll(ms)|, |ms|);
  }
}
