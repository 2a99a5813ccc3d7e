/** The batch-aware TCP server (get_data_server_batch.py).

    The stream is a sequence of records: a 4-byte big-endian length followed
    by that many body bytes. A 44-byte body is one packet. Any other body is
    scanned for `0A 00` headers, and each header with room for a whole packet
    after it is taken as a packet. Each packet updates the loss accounting,
    which compares the low nibble of byte 2 with the expected sequence
    modulo 8.

    The model has pure specification functions over `Tally` values with the
    lemmas about them, and the class `BatchPacketProcessor`, whose methods are
    proved equal to those functions. */
module BatchServer {
  import opened Bytes

  /** `LIDAR_PACKET_SIZE`. */
  const PACKET_SIZE: nat := 44
  /** The largest record length the stream loop accepts. */
  const MAX_RECORD: nat := 65536

  // ---------------------------------------------------------------------
  // The length prefix
  // ---------------------------------------------------------------------

  /** `struct.unpack('!I', b)`: four bytes, most significant first. */
  function BigEndian32(b: seq<byte>): (r: nat)
    requires |b| == 4
    ensures r < 0x1_0000_0000
  {
    (b[0] as int) * 0x100_0000 + (b[1] as int) * 0x1_0000 + (b[2] as int) * 0x100 + b[3]
  }

  /** `struct.pack('!I', n)`, the sender's side of the prefix. */
  function Encode32(n: u32): (r: seq<byte>)
    ensures |r| == 4
  {
    [n / 0x100_0000, (n / 0x1_0000) % 0x100, (n / 0x100) % 0x100, n % 0x100]
  }

  lemma {:induction false} DecodeEncode32(n: u32)
    ensures BigEndian32(Encode32(n)) == n
  {
    var a, b, c, d := n / 0x100_0000, (n / 0x1_0000) % 0x100, (n / 0x100) % 0x100, n % 0x100;
    assert n / 0x1_0000 == a * 0x100 + b;
    assert n / 0x100 == (n / 0x1_0000) * 0x100 + c;
    assert n == (n / 0x100) * 0x100 + d;
  }

  lemma {:induction false} EncodeDecode32(b: seq<byte>)
    requires |b| == 4
    ensures Encode32(BigEndian32(b)) == b
  {
    var n := BigEndian32(b);
    var b0, b1, b2: int := b[0], b[1], b[2];
    assert n / 0x100 == b0 * 0x1_0000 + b1 * 0x100 + b2;
    assert n / 0x1_0000 == b0 * 0x100 + b1;
    assert n / 0x100_0000 == b[0];
  }

  // ---------------------------------------------------------------------
  // The processor's state and one packet
  // ---------------------------------------------------------------------

  /** The fields of `BatchPacketProcessor` that the stream changes. */
  datatype Tally = Tally(packetCount: nat, lostCount: nat, errorCount: nat,
                         expectedSeq: nat, firstPacket: bool, totalBytes: nat)

  const Initial: Tally := Tally(0, 0, 0, 0, true, 0)

  function Error(t: Tally): Tally
  {
    t.(errorCount := t.errorCount + 1)
  }

  /** `_process_lidar_packet`. Python's `%` with a positive divisor is never
      negative, as is Dafny's, so `(seq - expected) % 8` is written as is. */
  function PacketSpec(t: Tally, packet: seq<byte>): Tally
  {
    if |packet| != PACKET_SIZE then Error(t)
    else if packet[0] != HEADER_0 || packet[1] != HEADER_1 then Error(t)
    else
      var sq := LowNibble(packet[2]);
      var t1 := if packet[3] != 0 then Error(t) else t;
      var t2 :=
        if !t1.firstPacket then
          if sq != t1.expectedSeq then
            var lost := (sq - t1.expectedSeq) % 8;
            if lost > 0 then t1.(lostCount := t1.lostCount + lost) else t1
          else t1
        else t1.(firstPacket := false);
      t2.(expectedSeq := (sq + 1) % 8, packetCount := t2.packetCount + 1)
  }

  /** A packet of the wrong length or with a wrong header adds one error and
      changes nothing else. */
  lemma {:induction false} RejectedPacket(t: Tally, packet: seq<byte>)
    requires |packet| != PACKET_SIZE || packet[0] != HEADER_0 || packet[1] != HEADER_1
    ensures PacketSpec(t, packet) == t.(errorCount := t.errorCount + 1)
  {
  }

  /** The effect of an accepted packet, field by field. Whether or not the
      sequence matched, the loss added is `(seq - expected) mod 8`, which
      lies in 0..7. The first packet only clears `first_packet`. A non-zero
      reserved byte adds an error, yet the packet is still counted. */
  lemma {:induction false} AcceptedPacket(t: Tally, packet: seq<byte>)
    requires |packet| == PACKET_SIZE && packet[0] == HEADER_0 && packet[1] == HEADER_1
    ensures var r := PacketSpec(t, packet);
      var sq := LowNibble(packet[2]);
      && r.packetCount == t.packetCount + 1
      && r.expectedSeq == (sq + 1) % 8 && r.expectedSeq < 8
      && !r.firstPacket
      && r.errorCount == t.errorCount + (if packet[3] != 0 then 1 else 0)
      && r.lostCount == t.lostCount + (if t.firstPacket then 0 else (sq - t.expectedSeq) % 8)
      && r.lostCount - t.lostCount < 8
      && r.totalBytes == t.totalBytes
  {
    var sq := LowNibble(packet[2]);
    if !t.firstPacket && sq == t.expectedSeq {
      assert (sq - t.expectedSeq) % 8 == 0;
    }
  }

  /** After a packet with sequence `q`, a packet with sequence `s` adds
      `(s - q - 1) mod 8` lost packets: the gap between them, counted
      modulo 8 even for the sequences 8..15 the 4-bit mask lets through. */
  lemma {:induction false} LossIsTheGap(t: Tally, p: seq<byte>, next: seq<byte>)
    requires |p| == PACKET_SIZE && p[0] == HEADER_0 && p[1] == HEADER_1
    requires |next| == PACKET_SIZE && next[0] == HEADER_0 && next[1] == HEADER_1
    ensures var t1 := PacketSpec(t, p);
      PacketSpec(t1, next).lostCount
        == t1.lostCount + ((LowNibble(next[2]) as int) - LowNibble(p[2]) - 1) % 8
  {
    var t1 := PacketSpec(t, p);
    var q: int, s: int := LowNibble(p[2]), LowNibble(next[2]);
    AcceptedPacket(t, p);
    AcceptedPacket(t1, next);
    assert (s - (q + 1) % 8) % 8 == (s - q - 1) % 8 by {
      if q + 1 < 8 {
        assert (q + 1) % 8 == q + 1;
      } else if q + 1 < 16 {
        assert (q + 1) % 8 == q + 1 - 8;
        assert s - (q + 1) % 8 == (s - q - 1) + 8;
      } else {
        assert (q + 1) % 8 == 0;
        assert s - (q + 1) % 8 == (s - q - 1) + 16;
      }
    }
  }

  // ---------------------------------------------------------------------
  // The header scan of a multi-packet body
  // ---------------------------------------------------------------------

  /** `_process_possible_batch` from the current offset, over what is left
      of the body. A header with room for a packet is taken as a packet and
      skipped whole; any other byte is skipped alone. */
  function Scan(t: Tally, data: seq<byte>): Tally
    decreases |data|
  {
    if |data| < PACKET_SIZE then t
    else if data[0] == HEADER_0 && data[1] == HEADER_1 then Scan(PacketSpec(t, data[..PACKET_SIZE]), data[PACKET_SIZE..])
    else Scan(t, data[1..])
  }

  /** The offsets at which the scan from offset `i` takes a packet. */
  ghost function Starts(data: seq<byte>, i: nat): seq<nat>
    decreases |data| - i
  {
    if i + PACKET_SIZE > |data| then []
    else if data[i] == HEADER_0 && data[i + 1] == HEADER_1 then [i] + Starts(data, i + PACKET_SIZE)
    else Starts(data, i + 1)
  }

  /** Every offset in `s` is at or after `i`, holds a header and has a whole
      packet after it. */
  ghost predicate Placed(data: seq<byte>, i: nat, s: seq<nat>)
  {
    forall k :: 0 <= k < |s| ==> i <= s[k] && s[k] + PACKET_SIZE <= |data| && HeaderAt(data, s[k])
  }

  /** The packets at the offsets in `s` come in order and do not overlap. */
  ghost predicate Spaced(s: seq<nat>)
  {
    forall j, k :: 0 <= j < k < |s| ==> s[j] + PACKET_SIZE <= s[k]
  }

  /** Every taken packet starts at or after `i` on a header and lies inside
      the body, and the packets do not overlap. */
  lemma {:induction false} StartsShape(data: seq<byte>, i: nat)
    ensures Placed(data, i, Starts(data, i)) && Spaced(Starts(data, i))
    decreases |data| - i
  {
    if i + PACKET_SIZE <= |data| {
      var s := Starts(data, i);
      if data[i] == HEADER_0 && data[i + 1] == HEADER_1 {
        var s' := Starts(data, i + PACKET_SIZE);
        StartsShape(data, i + PACKET_SIZE);
        assert s == [i] + s';
        forall k | 0 <= k < |s|
          ensures i <= s[k] && s[k] + PACKET_SIZE <= |data| && HeaderAt(data, s[k])
        {
          if k > 0 {
            assert s[k] == s'[k - 1];
          }
        }
        forall j, k | 0 <= j < k < |s|
          ensures s[j] + PACKET_SIZE <= s[k]
        {
          assert s[k] == s'[k - 1];
          if j > 0 {
            assert s[j] == s'[j - 1];
          }
        }
      } else {
        StartsShape(data, i + 1);
      }
    }
  }

  /** Applying the packets at the given offsets, in order. */
  function ApplyAt(t: Tally, data: seq<byte>, offsets: seq<nat>): Tally
    decreases |offsets|
  {
    if offsets == [] then t
    else
      var o := offsets[0];
      var packet := if o + PACKET_SIZE <= |data| then data[o..o + PACKET_SIZE] else [];
      ApplyAt(PacketSpec(t, packet), data, offsets[1..])
  }

  /** The scan applies exactly the packets at `Starts`, in order. */
  lemma {:induction false} ScanIsApplyAt(t: Tally, data: seq<byte>, i: nat)
    requires i <= |data|
    ensures Scan(t, data[i..]) == ApplyAt(t, data, Starts(data, i))
    decreases |data| - i
  {
    var d := data[i..];
    if i + PACKET_SIZE <= |data| {
      if data[i] == HEADER_0 && data[i + 1] == HEADER_1 {
        assert d[..PACKET_SIZE] == data[i..i + PACKET_SIZE];
        assert d[PACKET_SIZE..] == data[i + PACKET_SIZE..];
        ScanIsApplyAt(PacketSpec(t, d[..PACKET_SIZE]), data, i + PACKET_SIZE);
        assert ([i] + Starts(data, i + PACKET_SIZE))[1..] == Starts(data, i + PACKET_SIZE);
      } else {
        assert d[1..] == data[i + 1..];
        ScanIsApplyAt(t, data, i + 1);
      }
    }
  }

  /** Applying packets in order. */
  function ApplyAll(t: Tally, ps: seq<seq<byte>>): Tally
    decreases |ps|
  {
    if ps == [] then t else ApplyAll(PacketSpec(t, ps[0]), ps[1..])
  }

  /** A body made of whole 44-byte packets, each starting with the header,
      is processed as exactly those packets, in order. */
  lemma {:induction false} WholePacketsScan(t: Tally, ps: seq<seq<byte>>)
    requires forall k :: 0 <= k < |ps| ==> |ps[k]| == PACKET_SIZE && ps[k][0] == HEADER_0 && ps[k][1] == HEADER_1
    ensures Scan(t, Concat(ps)) == ApplyAll(t, ps)
    decreases |ps|
  {
    if ps != [] {
      var d := Concat(ps);
      assert d == ps[0] + Concat(ps[1..]);
      assert d[..PACKET_SIZE] == ps[0];
      assert d[PACKET_SIZE..] == Concat(ps[1..]);
      WholePacketsScan(PacketSpec(t, ps[0]), ps[1..]);
    }
  }

  // ---------------------------------------------------------------------
  // The record stream
  // ---------------------------------------------------------------------

  /** One record body: a 44-byte body is a single packet, any other goes to
      the header scan. */
  function BodySpec(t: Tally, body: seq<byte>): Tally
  {
    var t1 := t.(totalBytes := t.totalBytes + |body|);
    if |body| == PACKET_SIZE then PacketSpec(t1, body) else Scan(t1, body)
  }

  /** `process_batch_stream` over the bytes the connection still delivers.
      A bad length adds one error and its body is not skipped: the next four
      bytes are read as a length. A prefix or body cut short by the close
      ends the loop. */
  function Records(t: Tally, stream: seq<byte>): Tally
    decreases |stream|
  {
    if |stream| < 4 then t
    else
      var n := BigEndian32(stream[..4]);
      if n == 0 || n > MAX_RECORD then Records(Error(t), stream[4..])
      else if |stream| < 4 + n then t
      else Records(BodySpec(t, stream[4..4 + n]), stream[4 + n..])
  }

  /** A well-formed record is read as its body, whatever follows it. */
  lemma {:induction false} FramedRecord(t: Tally, body: seq<byte>, rest: seq<byte>)
    requires 1 <= |body| <= MAX_RECORD
    ensures Records(t, Encode32(|body|) + body + rest) == Records(BodySpec(t, body), rest)
  {
    var s := Encode32(|body|) + body + rest;
    assert s[..4] == Encode32(|body|);
    DecodeEncode32(|body|);
    assert s[4..4 + |body|] == body;
    assert s[4 + |body|..] == rest;
  }

  /** A length of 0 or above 65536 adds one error, and the bytes after the
      prefix are read as the next record. */
  lemma {:induction false} BadLengthNotSkipped(t: Tally, n: u32, rest: seq<byte>)
    requires n == 0 || n > MAX_RECORD
    ensures Records(t, Encode32(n) + rest) == Records(t.(errorCount := t.errorCount + 1), rest)
  {
    var s := Encode32(n) + rest;
    assert s[..4] == Encode32(n);
    DecodeEncode32(n);
    assert s[4..] == rest;
  }

  /** A record whose body is cut short by the close is dropped. */
  lemma {:induction false} TruncatedRecordDropped(t: Tally, n: u32, part: seq<byte>)
    requires 1 <= n <= MAX_RECORD && |part| < n
    ensures Records(t, Encode32(n) + part) == t
  {
    var s := Encode32(n) + part;
    assert s[..4] == Encode32(n);
    DecodeEncode32(n);
  }

  // ---------------------------------------------------------------------
  // The processor object
  // ---------------------------------------------------------------------

  /** `recv_exact(n)` on a connection that delivers `stream` and then closes:
      the next `n` bytes, or nothing when the close comes first. */
  function RecvExact(stream: seq<byte>, pos: nat, n: nat): (r: Option<seq<byte>>)
    ensures r.Some? ==> pos + n <= |stream| && r.value == stream[pos..pos + n]
    ensures r.None? ==> |stream| < pos + n
  {
    if pos + n <= |stream| then Some(stream[pos..pos + n]) else None
  }

  class BatchPacketProcessor {
    var packetCount: nat
    var lostCount: nat
    var errorCount: nat
    var expectedSeq: nat
    var firstPacket: bool
    var totalBytes: nat

    ghost function View(): Tally
      reads this
    {
      Tally(packetCount, lostCount, errorCount, expectedSeq, firstPacket, totalBytes)
    }

    constructor()
      ensures View() == Initial
    {
      packetCount := 0;
      lostCount := 0;
      errorCount := 0;
      expectedSeq := 0;
      firstPacket := true;
      totalBytes := 0;
    }

    /** `_process_lidar_packet`. */
    method ProcessLidarPacket(packet: seq<byte>)
      modifies this
      ensures View() == PacketSpec(old(View()), packet)
    {
      if |packet| != PACKET_SIZE {
        errorCount := errorCount + 1;
        return;
      }
      if packet[0] != HEADER_0 || packet[1] != HEADER_1 {
        errorCount := errorCount + 1;
        return;
      }
      var seqNum := LowNibble(packet[2]);
      if packet[3] != 0 {
        errorCount := errorCount + 1;
      }
      if !firstPacket {
        if seqNum != expectedSeq {
          var lost := (seqNum - expectedSeq) % 8;
          if lost > 0 {
            lostCount := lostCount + lost;
          }
        }
      } else {
        firstPacket := false;
      }
      expectedSeq := (seqNum + 1) % 8;
      packetCount := packetCount + 1;
    }

    /** `_process_possible_batch`. */
    method ProcessPossibleBatch(data: seq<byte>)
      modifies this
      ensures View() == Scan(old(View()), data)
    {
      var offset := 0;
      ghost var goal := Scan(View(), data);
      while offset + PACKET_SIZE <= |data|
        invariant offset <= |data|
        invariant Scan(View(), data[offset..]) == goal
        decreases |data| - offset
      {
        ghost var rest := data[offset..];
        if offset + 1 < |data| && data[offset] == HEADER_0 && data[offset + 1] == HEADER_1 {
          var packet := data[offset..offset + PACKET_SIZE];
          if |packet| == PACKET_SIZE {
            assert rest[..PACKET_SIZE] == packet && rest[PACKET_SIZE..] == data[offset + PACKET_SIZE..];
            ProcessLidarPacket(packet);
            offset := offset + PACKET_SIZE;
          } else {
            assert false;
          }
        } else {
          assert rest[1..] == data[offset + 1..];
          offset := offset + 1;
        }
      }
    }

    /** A record body, as the stream loop hands it on. */
    method ProcessBody(batchData: seq<byte>)
      modifies this
      ensures View() == BodySpec(old(View()), batchData)
    {
      totalBytes := totalBytes + |batchData|;
      if |batchData| == PACKET_SIZE {
        ProcessLidarPacket(batchData);
      } else {
        ProcessPossibleBatch(batchData);
      }
    }

    /** One turn of the `while True` loop: read a length prefix at
        `pos` and, when it is acceptable, the body after it. `more` is false
        when the close cut the prefix or the body short. */
    method ReadRecord(stream: seq<byte>, pos: nat) returns (next: nat, more: bool)
      requires pos <= |stream|
      modifies this
      ensures more ==> pos < next <= |stream| && Records(old(View()), stream[pos..]) == Records(View(), stream[next..])
      ensures !more ==> Records(old(View()), stream[pos..]) == View()
    {
      ghost var rest := stream[pos..];
      ghost var v := View();
      next := pos;
      var lengthData := RecvExact(stream, pos, 4);
      if lengthData.None? {
        return next, false;
      }
      assert rest[..4] == lengthData.value;
      var batchLength := BigEndian32(lengthData.value);
      next := pos + 4;
      if batchLength == 0 || batchLength > MAX_RECORD {
        assert rest[4..] == stream[next..];
        errorCount := errorCount + 1;
        assert View() == Error(v);
        return next, true;
      }
      var batchData := RecvExact(stream, next, batchLength);
      if batchData.None? {
        return next, false;
      }
      assert rest[4..4 + batchLength] == batchData.value;
      assert rest[4 + batchLength..] == stream[next + batchLength..];
      next := next + batchLength;
      ProcessBody(batchData.value);
      return next, true;
    }

    /** `process_batch_stream` on a connection that delivers `stream`: the
        `while True` loop over everything the sender writes before
        closing. */
    method ProcessBatchStream(stream: seq<byte>)
      modifies this
      ensures View() == Records(old(View()), stream)
    {
      var pos := 0;
      ghost var goal := Records(View(), stream);
      assert stream[pos..] == stream;
      while true
        invariant pos <= |stream|
        invariant Records(View(), stream[pos..]) == goal
        decreases |stream| - pos
      {
        var more;
        pos, more := ReadRecord(stream, pos);
        if !more {
          break;
        }
      }
    }
  }
}
