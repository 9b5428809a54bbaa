/**
 The log file behind one segment: a buffered appender (internal/wal/writer.go) and a
 sequential reader that decodes into one reused scratch buffer (internal/wal/reader.go).
 */
module LogFile {
  import opened Bytes
  import opened Checksum
  import opened Framing
  import opened Record

  datatype Appended = Appended(bytes: nat) | TopicTooLong

  const BUFFER_BYTES := 65536

  /**
   Where the file ends after bufio.Writer.Write of n more bytes: nothing moves while they fit the
   buffer; otherwise the buffer is filled and flushed, and what is left goes straight to the file if
   it is longer than the buffer.
   */
  function Spilled(written: nat, flushed: nat, n: nat): (r: nat)
    requires flushed <= written <= flushed + BUFFER_BYTES
    ensures flushed <= r <= written + n <= r + BUFFER_BYTES
  {
    var free := BUFFER_BYTES - (written - flushed);
    if n <= free then flushed
    else if written == flushed || n - free > BUFFER_BYTES then written + n
    else written + free
  }

  class LogWriter {
    /** Every byte handed to the buffered writer; `flushed` of them have reached the file. */
    var written: seq<Byte>
    var flushed: nat

    constructor ()
      ensures Valid() && written == [] && flushed == 0
    {
      written, flushed := [], 0;
    }

    ghost predicate Valid()
      reads this
    {
      flushed <= |written| <= flushed + BUFFER_BYTES
    }

    /** The bytes a reader of the file can see. */
    function File(): seq<Byte>
      requires Valid()
      reads this
    {
      written[..flushed]
    }

    /** bufio.Writer.Write: fill the buffer and flush it, or write directly when it is empty, until the rest fits. */
    method Write(s: seq<Byte>)
      requires Valid()
      modifies this
      ensures Valid() && written == old(written) + s && flushed == Spilled(|old(written)|, old(flushed), |s|)
      ensures var held := |old(written)| - old(flushed);
              if held + |s| <= BUFFER_BYTES then flushed == old(flushed)
              else if held == 0 || held + |s| > 2 * BUFFER_BYTES then flushed == |written|
              else flushed == old(flushed) + BUFFER_BYTES
    {
      var rest := s;
      while |rest| > BUFFER_BYTES - (|written| - flushed)
        invariant Valid() && written + rest == old(written) + s
        invariant Spilled(|written|, flushed, |rest|) == Spilled(|old(written)|, old(flushed), |s|)
        decreases |rest|, |written| - flushed
      {
        if |written| == flushed {
          written, rest := written + rest, [];
        } else {
          var n := BUFFER_BYTES - (|written| - flushed);
          written, rest := written + rest[..n], rest[n..];
        }
        flushed := |written|;
      }
      written := written + rest;
    }

    /** The four writes of a record. */
    method WriteParts(header: seq<Byte>, topic: seq<Byte>, payload: seq<Byte>, crc: seq<Byte>)
      requires Valid()
      modifies this
      ensures Valid() && written == old(written) + (header + topic + payload + crc) && old(flushed) <= flushed
      ensures |written| <= old(flushed) + BUFFER_BYTES ==> flushed == old(flushed)
    {
      Write(header);
      Write(topic);
      Write(payload);
      Write(crc);
    }

    method Sync()
      requires Valid()
      modifies this
      ensures Valid() && written == old(written) && flushed == |written|
    {
      flushed := |written|;
    }

    /** Queues one record, or rejects it without writing anything. */
    method Append(m: Message) returns (r: Appended)
      requires Valid()
      modifies this
      ensures Valid() && old(flushed) <= flushed
      ensures |m.topic| > MAX_TOPIC ==> r == TopicTooLong && written == old(written)
      ensures |m.topic| <= MAX_TOPIC ==> r == Appended(|Encode(m)|) && written == old(written) + Encode(m)
      ensures |old(written)| + |Encode(m)| <= old(flushed) + BUFFER_BYTES ==> flushed == old(flushed)
    {
      if |m.topic| > MAX_TOPIC {
        return TopicTooLong;
      }
      hide Crc32, ToLE;
      var header := FillHeader(m);
      var sum := ChecksumOf(m, header[..]);
      var crc := new Byte[CRC_BYTES](_ => 0);
      PutLE(crc, 0, CRC_BYTES, sum);
      WriteParts(header[..], m.topic, m.payload, crc[..]);
      assert header[..] + m.topic + m.payload + crc[..] == Encode(m);
      return Appended(HEADER_BYTES + |m.topic| + |m.payload| + CRC_BYTES);
    }
  }

  /** The fixed header, filled in place field by field. */
  method FillHeader(m: Message) returns (header: array<Byte>)
    ensures fresh(header) && header[..] == Header(m)
  {
    hide ToLE;
    header := new Byte[HEADER_BYTES](_ => 0);
    PutLE(header, 0, 8, m.sequence);
    PutLE(header, 8, 8, Unsigned(m.timestamp));
    PutLE(header, 16, 2, |m.topic|);
    PutLE(header, 18, 4, |m.payload|);
  }

  /** The writer's hasher: fed the header, the topic and the payload in three writes. */
  method ChecksumOf(m: Message, header: seq<Byte>) returns (sum: nat)
    requires header == Header(m)
    ensures sum == Crc32(Covered(m)) && sum < TWO_32
  {
    var h := Checksum.Write(0xFFFF_FFFF, header);
    WriteInPieces(0xFFFF_FFFF, header, m.topic);
    WriteInPieces(0xFFFF_FFFF, header + m.topic, m.payload);
    h := Checksum.Write(h, m.topic);
    h := Checksum.Write(h, m.payload);
    sum := Finish(h);
  }

  /**
   A message as the reader hands it out: the payload is a window into the reader's scratch
   buffer, so its value depends on the heap.
   */
  datatype View = View(sequence: U64, timestamp: I64, topic: seq<Byte>, buffer: array<Byte>, lo: nat, hi: nat)
  {
    ghost predicate Valid()
    {
      lo <= hi <= buffer.Length
    }

    function Value(): Message
      requires Valid()
      reads buffer
    {
      Message(sequence, timestamp, topic, [], buffer[lo..hi])
    }
  }

  datatype ReadResult = Got(view: View) | EndOfLog | Corrupted

  lemma {:induction false} ParseShort(header: seq<Byte>, rest: seq<Byte>)
    requires |header| == HEADER_BYTES
    ensures |rest| < BodyLen(header) + CRC_BYTES ==> Parse(header + rest) == Torn
  {
    var b := header + rest;
    assert b[16..18] == header[16..18] && b[18..22] == header[18..22];
  }

  lemma {:induction false} ParseLong(header: seq<Byte>, rest: seq<Byte>)
    requires |header| == HEADER_BYTES && |rest| >= BodyLen(header) + CRC_BYTES
    ensures var t, n := FromLE(header[16..18]), BodyLen(header);
            && FromLE(header[0..8]) < TWO_64 && FromLE(header[8..16]) < TWO_64
            && Parse(header + rest) ==
               if FromLE(rest[n..n + CRC_BYTES]) != Crc32(header + rest[..n]) then Torn
               else Parsed(Message(FromLE(header[0..8]), Signed(FromLE(header[8..16])), rest[..t], [], rest[t..n]),
                           HEADER_BYTES + n + CRC_BYTES)
  {
    var b, t, n := header + rest, FromLE(header[16..18]), BodyLen(header);
    var body := HEADER_BYTES + n;
    PowersOf256();
    assert b[0..8] == header[0..8] && b[8..16] == header[8..16];
    assert b[16..18] == header[16..18] && b[18..22] == header[18..22];
    assert b[..body] == header + rest[..n];
    assert b[body..body + CRC_BYTES] == rest[n..n + CRC_BYTES];
    assert b[HEADER_BYTES..HEADER_BYTES + t] == rest[..t];
    assert b[HEADER_BYTES + t..body] == rest[t..n];
  }

  class LogReader {
    const file: seq<Byte>
    var pos: nat
    var scratch: array<Byte>

    /** Opens the file and seeks to `offset`, which may lie past the end. */
    constructor (file: seq<Byte>, offset: nat)
      ensures this.file == file && pos == offset && fresh(scratch)
    {
      this.file := file;
      pos := offset;
      scratch := new Byte[4096](_ => 0);
    }

    ghost function Unread(): seq<Byte>
      reads this
    {
      if pos <= |file| then file[pos..] else []
    }

    /** io.ReadFull of a body into the scratch buffer, grown first when it is too small. */
    method ReadBody(want: nat) returns (ok: bool)
      requires pos <= |file|
      modifies this`pos, this`scratch, scratch
      ensures if old(scratch).Length < want then fresh(scratch) else scratch == old(scratch)
      ensures ok == (old(pos) + want <= |file|) && want <= scratch.Length
      ensures ok ==> pos == old(pos) + want && scratch[..want] == file[old(pos)..pos]
      ensures !ok ==> pos == |file|
    {
      if scratch.Length < want {
        scratch := new Byte[want](_ => 0);
      }
      var have := if pos + want <= |file| then want else |file| - pos;
      PutBytes(scratch, 0, file[pos..pos + have]);
      pos := pos + have;
      ok := have == want;
      if ok {
        assert scratch[..want] == file[old(pos)..pos];
      }
    }

    /** Decodes the next record; the outcome is that of `Parse` on the unread bytes. */
    method Next() returns (r: ReadResult)
      modifies this`pos, this`scratch, scratch
      ensures scratch == old(scratch) || fresh(scratch)
      ensures match Parse(old(Unread()))
              case Eof => r == EndOfLog && pos == old(pos)
              case Torn => r == Corrupted && pos > old(pos)
              case Parsed(m, size) =>
                && r.Got? && r.view.buffer == scratch && r.view.Valid() && r.view.Value() == m
                && pos == old(pos) + size && Unread() == old(Unread())[size..]
    {
      if pos >= |file| {
        return EndOfLog;
      }
      if |file| - pos < HEADER_BYTES {
        pos := |file|;
        return Corrupted;
      }
      var header := file[pos..pos + HEADER_BYTES];
      pos := pos + HEADER_BYTES;
      assert header + file[pos..] == old(Unread());
      r := NextBody(header);
    }

    /** The rest of a record whose header has been read. */
    method NextBody(header: seq<Byte>) returns (r: ReadResult)
      requires |header| == HEADER_BYTES && pos <= |file|
      modifies this`pos, this`scratch, scratch
      ensures scratch == old(scratch) || fresh(scratch)
      ensures match Parse(header + file[old(pos)..])
              case Eof => false
              case Torn => r == Corrupted && pos >= old(pos)
              case Parsed(m, size) =>
                && r.Got? && r.view.buffer == scratch && r.view.Valid() && r.view.Value() == m
                && old(pos) + size == pos + HEADER_BYTES && pos <= |file|
    {
      hide Parse, Crc32, FromLE, Decoded;
      ghost var rest := file[pos..];
      var topicLen, payloadLen := FromLE(header[16..18]), FromLE(header[18..22]);
      var bodyLen := topicLen + payloadLen;
      var start := pos;
      ParseShort(header, rest);
      var ok := ReadBody(bodyLen);
      if !ok {
        return Corrupted;
      }
      if |file| - pos < CRC_BYTES {
        pos := |file|;
        return Corrupted;
      }
      var crc := file[pos..pos + CRC_BYTES];
      pos := pos + CRC_BYTES;
      var sum := BodyChecksum(header, scratch[..bodyLen]);
      assert rest[..bodyLen] == scratch[..bodyLen];
      assert rest[bodyLen..bodyLen + CRC_BYTES] == crc;
      ParseLong(header, rest);
      if sum != FromLE(crc) {
        return Corrupted;
      }
      assert scratch[..topicLen] == scratch[..bodyLen][..topicLen] == rest[..topicLen];
      assert scratch[topicLen..bodyLen] == scratch[..bodyLen][topicLen..] == rest[topicLen..bodyLen];
      r := Got(MakeView(header, topicLen, bodyLen));
    }

    function MakeView(header: seq<Byte>, lo: nat, hi: nat): View
      requires |header| == HEADER_BYTES && lo <= hi <= scratch.Length
      reads this, scratch
    {
      PowersOf256();
      View(FromLE(header[0..8]), Signed(FromLE(header[8..16])), scratch[..lo], scratch, lo, hi)
    }
  }

  /** The reader's hasher: fed the header and then topic and payload together. */
  method BodyChecksum(header: seq<Byte>, body: seq<Byte>) returns (sum: nat)
    ensures sum == Crc32(header + body)
  {
    var h := Checksum.Write(0xFFFF_FFFF, header);
    WriteInPieces(0xFFFF_FFFF, header, body);
    h := Checksum.Write(h, body);
    sum := Finish(h);
  }
}
