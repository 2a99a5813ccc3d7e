/** The test sender for the batch receiver (test_batch_sender.py).

    It builds 352-byte test packets and 2816-byte batches of eight of them:
    a complete batch carries sequences 0..7 in order, and an incomplete one
    puts a wrong sequence into each slot of a chosen set. Which slots are
    missing is picked at random in the sender; here it is a parameter.

    Each builder is a method that fills its bytes the way the sender does,
    proved equal to a function. The lemmas then feed those functions to
    the receiver's `process_batch` model. */
module BatchSender {
  import opened Bytes
  import opened BatchReceiver

  /** Data byte `i` of the test packet for `sequence`: `(sequence * 100 + i) & 0xFF`. */
  function DataByte(sequence: nat, i: nat): (r: byte)
    ensures r == (sequence * 100 + i) % 256
  {
    (sequence * 100 + i) % 256
  }

  /** `create_test_packet(sequence)`: the `0A 00` header, the sequence's low
      nibble, a zero byte, and the data bytes. */
  function TestPacket(sequence: nat): (p: seq<byte>)
    ensures |p| == PACKET_SIZE
  {
    [HEADER_0, HEADER_1, LowNibble(sequence % 256), 0]
      + seq(PACKET_SIZE - 4, j requires 0 <= j < PACKET_SIZE - 4 => DataByte(sequence, j + 4))
  }

  /** The bytes of a test packet one by one, as the sender writes them. */
  lemma {:induction false} TestPacketBytes(sequence: nat)
    ensures var p := TestPacket(sequence);
      && p[0] == 0x0A && p[1] == 0x00 && p[2] == sequence % 16 && p[3] == 0
      && forall i :: 4 <= i < PACKET_SIZE ==> p[i] == (sequence * 100 + i) % 256
  {
    var p := TestPacket(sequence);
    assert p[2] == LowNibble(sequence % 256);
    assert (sequence % 256) % 16 == sequence % 16;
    forall i | 4 <= i < PACKET_SIZE
      ensures p[i] == (sequence * 100 + i) % 256
    {
      assert p[i] == DataByte(sequence, i - 4 + 4);
    }
  }

  /** The receiver accepts a test packet at slot `i` exactly when `i` is its
      sequence's low nibble. */
  lemma {:induction false} TestPacketAccepted(sequence: nat, i: nat)
    ensures PacketOk(TestPacket(sequence), i) <==> i == sequence % 16
  {
    TestPacketBytes(sequence);
    var p := TestPacket(sequence);
    assert LowNibble(p[2]) == p[2];
  }

  /** The eight packets for `sequences`, one after the other. */
  function BatchOf(sequences: seq<nat>): (b: seq<byte>)
    requires |sequences| == BATCH_PACKETS
    ensures |b| == BATCH_SIZE
  {
    seq(BATCH_SIZE, i requires 0 <= i < BATCH_SIZE => TestPacket(sequences[i / PACKET_SIZE])[i % PACKET_SIZE])
  }

  /** Slot `k` of a batch is the test packet for the `k`-th sequence. */
  lemma {:induction false} BatchOfSlot(sequences: seq<nat>, k: nat)
    requires |sequences| == BATCH_PACKETS && k < BATCH_PACKETS
    ensures Slot(BatchOf(sequences), k) == TestPacket(sequences[k])
  {
    var b := BatchOf(sequences);
    var p := TestPacket(sequences[k]);
    forall j | 0 <= j < PACKET_SIZE
      ensures Slot(b, k)[j] == p[j]
    {
      var i := PACKET_SIZE * k + j;
      assert i / PACKET_SIZE == k && i % PACKET_SIZE == j;
      assert Slot(b, k)[j] == b[i];
    }
  }

  /** The first `k` packets of a batch are the first `k` packets and then
      the next one. */
  lemma {:induction false} BatchOfPrefix(sequences: seq<nat>, k: nat)
    requires |sequences| == BATCH_PACKETS && k < BATCH_PACKETS
    ensures BatchOf(sequences)[..PACKET_SIZE * (k + 1)]
         == BatchOf(sequences)[..PACKET_SIZE * k] + TestPacket(sequences[k])
  {
    var b := BatchOf(sequences);
    BatchOfSlot(sequences, k);
    assert b[..PACKET_SIZE * (k + 1)] == b[..PACKET_SIZE * k] + Slot(b, k);
  }

  /** Entry `j` of `list(range(8))` is `j`. */
  lemma {:induction false} AllSequencesAt(j: nat)
    requires j < BATCH_PACKETS
    ensures ALL_SEQUENCES[j] == j
  {
    if j < 4 {
      assert j == 0 || j == 1 || j == 2 || j == 3;
    } else {
      assert j == 4 || j == 5 || j == 6 || j == 7;
    }
  }

  /** `create_test_batch()`: sequences 0..7 in order. */
  function TestBatch(): (b: seq<byte>)
    ensures |b| == BATCH_SIZE
  {
    BatchOf(ALL_SEQUENCES)
  }

  /** Slot `k` of the complete test batch is the test packet for `k`. */
  lemma {:induction false} TestBatchSlot(k: nat)
    requires k < BATCH_PACKETS
    ensures Slot(TestBatch(), k) == TestPacket(k)
  {
    AllSequencesAt(k);
    BatchOfSlot(ALL_SEQUENCES, k);
  }

  lemma {:induction false} SmallMod(x: nat)
    requires x < 16
    ensures x % 16 == x
  {
  }

  /** The sequence `create_incomplete_batch` gives slot `s`: `(s + 10) % 16`
      for a missing slot, `s` otherwise. */
  function SentSequence(missing: set<nat>, s: nat): (r: nat)
    ensures r < 16 ==> (r == s <==> s !in missing)
  {
    if s in missing then (s + 10) % 16 else s
  }

  function SentSequences(missing: set<nat>): (r: seq<nat>)
    ensures |r| == BATCH_PACKETS
    ensures forall s :: 0 <= s < BATCH_PACKETS ==> r[s] == SentSequence(missing, s)
  {
    seq(BATCH_PACKETS, s requires 0 <= s < BATCH_PACKETS => SentSequence(missing, s))
  }

  /** `create_incomplete_batch()` with the missing slots given. */
  function IncompleteBatch(missing: set<nat>): (b: seq<byte>)
    ensures |b| == BATCH_SIZE
  {
    BatchOf(SentSequences(missing))
  }

  /** Every slot of a batch built from test packets has the `0A 00` header. */
  lemma {:induction false} BatchOfHeaders(sequences: seq<nat>)
    requires |sequences| == BATCH_PACKETS
    ensures forall j :: 0 <= j < BATCH_PACKETS ==>
      Slot(BatchOf(sequences), j)[0] == HEADER_0 && Slot(BatchOf(sequences), j)[1] == HEADER_1
  {
    forall j | 0 <= j < BATCH_PACKETS
      ensures Slot(BatchOf(sequences), j)[0] == HEADER_0 && Slot(BatchOf(sequences), j)[1] == HEADER_1
    {
      BatchOfSlot(sequences, j);
      TestPacketBytes(sequences[j]);
    }
  }

  /** Every slot of the test batch passes the receiver's check. */
  lemma {:induction false} TestBatchSlotsOk()
    ensures forall j :: 0 <= j < BATCH_PACKETS ==> PacketOk(Slot(TestBatch(), j), j)
  {
    forall j | 0 <= j < BATCH_PACKETS
      ensures PacketOk(Slot(TestBatch(), j), j)
    {
      TestBatchSlot(j);
      TestPacketAccepted(j, j);
      SmallMod(j);
    }
  }

  /** The round trip: the receiver takes a complete test batch as one good
      batch of eight packets, collects the sequences 0..7, and counts no
      error. */
  lemma {:induction false} TestBatchRoundTrip(c: Counts)
    ensures ValidFrom(TestBatch(), 0) == ALL_SEQUENCES
    ensures BatchSpec(c, TestBatch())
         == c.(totalBatches := c.totalBatches + 1, totalPackets := c.totalPackets + BATCH_PACKETS)
  {
    var b := TestBatch();
    TestBatchSlotsOk();
    ValidFromLength(b, 0);
    AllValidIff(b, 0);
    RangeLength(0);
    RangeAll();
    BatchOfHeaders(ALL_SEQUENCES);
    HeadersOkBatch(c, b);
  }

  /** Slot `s` of an incomplete batch is the test packet for the sequence
      sent in that slot. */
  lemma {:induction false} IncompleteSlot(missing: set<nat>, s: nat)
    requires s < BATCH_PACKETS
    ensures Slot(IncompleteBatch(missing), s) == TestPacket(SentSequence(missing, s))
  {
    BatchOfSlot(SentSequences(missing), s);
  }

  /** Whether a slot of an incomplete batch passes: exactly when it is not
      missing, since `(s + 10) % 16` is never `s`. */
  lemma {:induction false} IncompleteSlotOk(missing: set<nat>, s: nat)
    requires s < BATCH_PACKETS
    ensures PacketOk(Slot(IncompleteBatch(missing), s), s) <==> s !in missing
  {
    var x := SentSequence(missing, s);
    IncompleteSlot(missing, s);
    TestPacketAccepted(x, s);
    SmallMod(x);
  }

  /** The receiver collects exactly the slots of an incomplete batch that
      are not missing. */
  lemma {:induction false} IncompleteBatchCollects(missing: set<nat>, j: nat)
    ensures j in ValidFrom(IncompleteBatch(missing), 0) <==> j < BATCH_PACKETS && j !in missing
  {
    ValidFromMembers(IncompleteBatch(missing), 0, j);
    if j < BATCH_PACKETS {
      IncompleteSlotOk(missing, j);
    }
  }

  /** What the receiver counts for an incomplete batch: one batch, a packet
      per slot that is not missing, a sequence error per missing slot and
      one more when any slot is missing, and no header or size error. */
  lemma {:induction false} IncompleteBatchEffect(c: Counts, missing: set<nat>)
    ensures var r := BatchSpec(c, IncompleteBatch(missing));
      var n := |ValidFrom(IncompleteBatch(missing), 0)|;
      var anyMissing := exists s :: 0 <= s < BATCH_PACKETS && s in missing;
      && (anyMissing <==> n < BATCH_PACKETS)
      && r.totalBatches == c.totalBatches + 1
      && r.totalPackets == c.totalPackets + n
      && r.sequenceErrors + n == c.sequenceErrors + BATCH_PACKETS + (if anyMissing then 1 else 0)
      && r.headerErrors == c.headerErrors && r.sizeErrors == c.sizeErrors
  {
    var b := IncompleteBatch(missing);
    var v := ValidFrom(b, 0);
    ValidFromLength(b, 0);
    RangeLength(0);
    if s :| 0 <= s < BATCH_PACKETS && s in missing {
      IncompleteBatchCollects(missing, s);
      if |v| == BATCH_PACKETS {
        ValidFromIsRange(b, 0);
        assert false;
      }
    } else {
      forall j | 0 <= j < BATCH_PACKETS
        ensures PacketOk(Slot(b, j), j)
      {
        IncompleteSlotOk(missing, j);
      }
      AllValidIff(b, 0);
    }
    BatchOfHeaders(SentSequences(missing));
    HeadersOkBatch(c, b);
  }

  /** `create_test_packet`: a zeroed buffer, the four header bytes, then the
      data bytes one index at a time. */
  method CreateTestPacket(sequence: nat) returns (packet: seq<byte>)
    ensures packet == TestPacket(sequence)
  {
    var buf := new byte[PACKET_SIZE](_ => 0);
    buf[0] := HEADER_0;
    buf[1] := HEADER_1;
    buf[2] := LowNibble(sequence % 256);
    buf[3] := 0;
    ghost var p := TestPacket(sequence);
    for i := 4 to PACKET_SIZE
      invariant forall j :: 0 <= j < i ==> buf[j] == p[j]
    {
      buf[i] := (sequence * 100 + i) % 256;
      assert p[i] == DataByte(sequence, i - 4 + 4);
    }
    packet := buf[..];
  }

  /** `create_test_batch`: the packets for 0..7 appended in order. */
  method CreateTestBatch() returns (batchData: seq<byte>)
    ensures batchData == TestBatch()
  {
    batchData := [];
    for sq := 0 to BATCH_PACKETS
      invariant batchData == TestBatch()[..PACKET_SIZE * sq]
    {
      var packet := CreateTestPacket(sq);
      BatchOfPrefix(ALL_SEQUENCES, sq);
      AllSequencesAt(sq);
      batchData := batchData + packet;
    }
  }

  /** `create_incomplete_batch`: slot `s` gets the packet for `s`, or for
      `(s + 10) % 16` when it is missing. */
  method CreateIncompleteBatch(missing: set<nat>) returns (batchData: seq<byte>)
    ensures batchData == IncompleteBatch(missing)
  {
    batchData := [];
    for sq := 0 to BATCH_PACKETS
      invariant batchData == IncompleteBatch(missing)[..PACKET_SIZE * sq]
    {
      var packet;
      if sq !in missing {
        packet := CreateTestPacket(sq);
      } else {
        packet := CreateTestPacket((sq + 10) % 16);
      }
      BatchOfPrefix(SentSequences(missing), sq);
      batchData := batchData + packet;
    }
  }
}
