/** The batch receiver for the 352-byte packet format
    (get_data_batch_receiver.py).

    Received bytes are cut into consecutive 2816-byte batches of eight
    packets. In each batch, packet `i` is checked for the `0A 00` header and
    for sequence `i` in the low nibble of byte 2. The indices of the packets
    that pass are collected, and a list other than 0..7 counts one more
    sequence error.

    The model has pure specification functions over `Counts` values with the
    lemmas about them, and the class `LidarBatchReceiver`, whose methods are
    proved equal to those functions. */
module BatchReceiver {
  import opened Bytes

  /** `LIDAR_PACKET_SIZE`, `LIDAR_BATCH_SIZE` and `BATCH_SIZE`. */
  const PACKET_SIZE: nat := 352
  const BATCH_PACKETS: nat := 8
  const BATCH_SIZE: nat := 2816

  /** `list(range(8))`. */
  const ALL_SEQUENCES: seq<nat> := [0, 1, 2, 3, 4, 5, 6, 7]

  /** The counters `process_batch` and the validators change; the byte
      counter `handle_client` keeps is held apart from them. */
  datatype Counts = Counts(totalBatches: nat, totalPackets: nat, sequenceErrors: nat,
                           headerErrors: nat, sizeErrors: nat)

  const Zero: Counts := Counts(0, 0, 0, 0, 0)

  /** The packet at slot `i` of a batch. */
  function Slot(b: seq<byte>, i: nat): (p: seq<byte>)
    requires |b| == BATCH_SIZE && i < BATCH_PACKETS
    ensures |p| == PACKET_SIZE
  {
    b[352 * i..352 * i + 352]
  }

  /** What `validate_packet(p, i)` accepts: the header, and sequence `i` in
      the low nibble of byte 2. The reserved byte is not looked at. */
  predicate PacketOk(p: seq<byte>, i: nat)
  {
    |p| >= 4 && p[0] == HEADER_0 && p[1] == HEADER_1 && LowNibble(p[2]) == i
  }

  /** `validate_packet(p, i)`: the verdict and the counters after it. */
  function CheckPacket(c: Counts, p: seq<byte>, i: nat): (r: (Counts, bool))
    ensures r.1 <==> PacketOk(p, i)
  {
    if |p| < 4 then (c, false)
    else if p[0] != HEADER_0 || p[1] != HEADER_1 then (c.(headerErrors := c.headerErrors + 1), false)
    else if LowNibble(p[2]) != i then (c.(sequenceErrors := c.sequenceErrors + 1), false)
    else (c, true)
  }

  /** The `for` loop of `process_batch` from slot `i`, with the sequences
      collected so far. It terminates on the bytes of the batch not yet
      looked at. */
  function Slots(c: Counts, b: seq<byte>, i: nat, seqs: seq<nat>): (Counts, seq<nat>)
    requires |b| == BATCH_SIZE && i <= BATCH_PACKETS
    decreases |b| - PACKET_SIZE * i
  {
    if i == BATCH_PACKETS then (c, seqs)
    else
      var p := Slot(b, i);
      var r := CheckPacket(c, p, i);
      if r.1 then Slots(r.0.(totalPackets := r.0.totalPackets + 1), b, i + 1, seqs + [LowNibble(p[2])])
      else Slots(r.0, b, i + 1, seqs)
  }

  /** `validate_batch_sequences`. */
  function SequencesCheck(c: Counts, seqs: seq<nat>): Counts
  {
    if seqs != ALL_SEQUENCES then c.(sequenceErrors := c.sequenceErrors + 1) else c
  }

  /** `process_batch`. */
  function BatchSpec(c: Counts, b: seq<byte>): Counts
  {
    if |b| != BATCH_SIZE then c.(sizeErrors := c.sizeErrors + 1)
    else
      var r := Slots(c.(totalBatches := c.totalBatches + 1), b, 0, []);
      SequencesCheck(r.0, r.1)
  }

  lemma {:induction false} BatchSpecUnfold(c: Counts, b: seq<byte>)
    requires |b| == BATCH_SIZE
    ensures var g := Slots(c.(totalBatches := c.totalBatches + 1), b, 0, []);
      BatchSpec(c, b) == SequencesCheck(g.0, g.1)
  {
  }

  // ---------------------------------------------------------------------
  // Properties of one batch
  // ---------------------------------------------------------------------

  /** The slots from `i` on whose packet passes, in increasing order. */
  function ValidFrom(b: seq<byte>, i: nat): seq<nat>
    requires |b| == BATCH_SIZE && i <= BATCH_PACKETS
    decreases |b| - PACKET_SIZE * i
  {
    if i == BATCH_PACKETS then []
    else if PacketOk(Slot(b, i), i) then [i] + ValidFrom(b, i + 1)
    else ValidFrom(b, i + 1)
  }

  /** There are at most as many passing slots as slots. */
  lemma {:induction false} ValidFromLength(b: seq<byte>, i: nat)
    requires |b| == BATCH_SIZE && i <= BATCH_PACKETS
    ensures |ValidFrom(b, i)| <= BATCH_PACKETS - i
    decreases BATCH_PACKETS - i
  {
    if i < BATCH_PACKETS {
      ValidFromLength(b, i + 1);
    }
  }

  /** `i, i+1, ..., 7`. */
  function Range(i: nat): seq<nat>
    requires i <= BATCH_PACKETS
    decreases BATCH_PACKETS - i
  {
    if i == BATCH_PACKETS then [] else [i] + Range(i + 1)
  }

  lemma {:induction false} RangeLength(i: nat)
    requires i <= BATCH_PACKETS
    ensures |Range(i)| == BATCH_PACKETS - i
    decreases BATCH_PACKETS - i
  {
    if i < BATCH_PACKETS {
      RangeLength(i + 1);
    }
  }

  /** `list(range(8))` is the range from 0. */
  lemma {:induction false} RangeAll()
    ensures Range(0) == ALL_SEQUENCES
  {
    assert Range(BATCH_PACKETS) == [];
    assert Range(4) == [4, 5, 6, 7];
  }

  /** One turn of the loop: a passing slot is counted and its index
      collected; a failing one only touches the error counters. */
  lemma {:induction false} SlotsStep(c: Counts, b: seq<byte>, i: nat, seqs: seq<nat>)
    requires |b| == BATCH_SIZE && i < BATCH_PACKETS
    ensures var r := CheckPacket(c, Slot(b, i), i);
      Slots(c, b, i, seqs)
        == if r.1 then Slots(r.0.(totalPackets := r.0.totalPackets + 1), b, i + 1, seqs + [i])
           else Slots(r.0, b, i + 1, seqs)
  {
  }

  /** The loop collects exactly the slots whose packet passes. */
  lemma {:induction false} SlotsCollect(c: Counts, b: seq<byte>, i: nat, seqs: seq<nat>)
    requires |b| == BATCH_SIZE && i <= BATCH_PACKETS
    ensures Slots(c, b, i, seqs).1 == seqs + ValidFrom(b, i)
    decreases BATCH_PACKETS - i
  {
    if i < BATCH_PACKETS {
      var r := CheckPacket(c, Slot(b, i), i);
      SlotsStep(c, b, i, seqs);
      if r.1 {
        var v := ValidFrom(b, i + 1);
        assert ValidFrom(b, i) == [i] + v;
        SlotsCollect(r.0.(totalPackets := r.0.totalPackets + 1), b, i + 1, seqs + [i]);
        assert seqs + [i] + v == seqs + ([i] + v);
      } else {
        assert ValidFrom(b, i) == ValidFrom(b, i + 1);
        SlotsCollect(r.0, b, i + 1, seqs);
      }
    } else {
      assert Slots(c, b, i, seqs) == (c, seqs);
      assert ValidFrom(b, i) == [];
      assert seqs + [] == seqs;
    }
  }

  /** One packet is counted for each passing slot. Every failing slot adds
      exactly one header or one sequence error, and the size and batch
      counters are left alone. */
  lemma {:induction false} SlotsCount(c: Counts, b: seq<byte>, i: nat, seqs: seq<nat>)
    requires |b| == BATCH_SIZE && i <= BATCH_PACKETS
    ensures var r := Slots(c, b, i, seqs).0;
      var n := |ValidFrom(b, i)|;
      && r.totalPackets == c.totalPackets + n
      && r.headerErrors + r.sequenceErrors == c.headerErrors + c.sequenceErrors + (BATCH_PACKETS - i - n)
      && r.totalBatches == c.totalBatches && r.sizeErrors == c.sizeErrors
    decreases BATCH_PACKETS - i
  {
    if i == BATCH_PACKETS {
      assert Slots(c, b, i, seqs) == (c, seqs);
      assert ValidFrom(b, i) == [];
    } else {
      var r := CheckPacket(c, Slot(b, i), i);
      CheckPacketEffect(c, Slot(b, i), i);
      SlotsStep(c, b, i, seqs);
      var n := |ValidFrom(b, i + 1)|;
      if r.1 {
        var c' := c.(totalPackets := c.totalPackets + 1);
        var g := Slots(c', b, i + 1, seqs + [i]).0;
        assert Slots(c, b, i, seqs).0 == g;
        assert |ValidFrom(b, i)| == 1 + n;
        SlotsCount(c', b, i + 1, seqs + [i]);
        assert g.totalPackets == c.totalPackets + 1 + n;
      } else {
        var g := Slots(r.0, b, i + 1, seqs).0;
        assert Slots(c, b, i, seqs).0 == g;
        assert |ValidFrom(b, i)| == n;
        SlotsCount(r.0, b, i + 1, seqs);
        assert g.totalPackets == c.totalPackets + n;
      }
    }
  }

  /** A packet of at least four bytes either passes and changes no counter,
      or fails and adds exactly one header or one sequence error. */
  lemma {:induction false} CheckPacketEffect(c: Counts, p: seq<byte>, i: nat)
    requires |p| >= 4
    ensures var r := CheckPacket(c, p, i);
      && (r.1 ==> r.0 == c && LowNibble(p[2]) == i)
      && (!r.1 ==> r.0.headerErrors + r.0.sequenceErrors == c.headerErrors + c.sequenceErrors + 1
                   && r.0.totalPackets == c.totalPackets && r.0.totalBatches == c.totalBatches
                   && r.0.sizeErrors == c.sizeErrors)
  {
  }

  /** The collected list is 0..7 exactly when every packet passes. */
  lemma {:induction false} AllValidIff(b: seq<byte>, i: nat)
    requires |b| == BATCH_SIZE && i <= BATCH_PACKETS
    ensures ValidFrom(b, i) == Range(i) <==> forall j :: i <= j < BATCH_PACKETS ==> PacketOk(Slot(b, j), j)
    decreases BATCH_PACKETS - i
  {
    if i < BATCH_PACKETS {
      AllValidIff(b, i + 1);
      var v := ValidFrom(b, i + 1);
      var r := Range(i + 1);
      assert Range(i) == [i] + r;
      if PacketOk(Slot(b, i), i) {
        assert ValidFrom(b, i) == [i] + v;
        if [i] + v == [i] + r {
          assert ([i] + v)[1..] == v && ([i] + r)[1..] == r;
        }
        assert (ValidFrom(b, i) == Range(i)) == (v == r);
        if forall j :: i + 1 <= j < BATCH_PACKETS ==> PacketOk(Slot(b, j), j) {
          assert forall j :: i <= j < BATCH_PACKETS ==> PacketOk(Slot(b, j), j);
        }
      } else {
        assert ValidFrom(b, i) == v;
        ValidFromLength(b, i + 1);
        RangeLength(i);
        assert |ValidFrom(b, i)| < |Range(i)|;
      }
    } else {
      assert ValidFrom(b, i) == [] && Range(i) == [];
    }
  }

  /** The effect of a batch on the counters. A batch of the wrong size adds a
      size error and nothing else. A whole batch counts one batch and one
      packet per passing slot. Each failing slot adds one header or sequence
      error, and any failure adds one more sequence error for the batch. */
  lemma {:induction false} BatchEffect(c: Counts, b: seq<byte>)
    ensures |b| != BATCH_SIZE ==> BatchSpec(c, b) == c.(sizeErrors := c.sizeErrors + 1)
    ensures |b| == BATCH_SIZE ==>
      var r := BatchSpec(c, b);
      var n := |ValidFrom(b, 0)|;
      var allOk := forall j :: 0 <= j < BATCH_PACKETS ==> PacketOk(Slot(b, j), j);
      && r.totalBatches == c.totalBatches + 1
      && r.totalPackets == c.totalPackets + n
      && r.sizeErrors == c.sizeErrors
      && (allOk <==> n == BATCH_PACKETS)
      && r.headerErrors + r.sequenceErrors
           == c.headerErrors + c.sequenceErrors + (BATCH_PACKETS - n) + (if allOk then 0 else 1)
  {
    if |b| == BATCH_SIZE {
      var c1 := c.(totalBatches := c.totalBatches + 1);
      SlotsCollect(c1, b, 0, []);
      SlotsCount(c1, b, 0, []);
      AllValidIff(b, 0);
      var v := ValidFrom(b, 0);
      assert [] + v == v;
      RangeAll();
      if |v| == BATCH_PACKETS {
        ValidFromIsRange(b, 0);
      }
    }
  }

  /** A list of passing slots with no gap is the whole range. */
  lemma {:induction false} ValidFromIsRange(b: seq<byte>, i: nat)
    requires |b| == BATCH_SIZE && i <= BATCH_PACKETS
    requires |ValidFrom(b, i)| == BATCH_PACKETS - i
    ensures ValidFrom(b, i) == Range(i)
    decreases BATCH_PACKETS - i
  {
    if i < BATCH_PACKETS {
      if PacketOk(Slot(b, i), i) {
        ValidFromIsRange(b, i + 1);
      } else {
        ValidFromLength(b, i + 1);
      }
    } else {
      assert ValidFrom(b, i) == [] && Range(i) == [];
    }
  }

  /** The collected list holds exactly the slots whose packet passes. */
  lemma {:induction false} ValidFromMembers(b: seq<byte>, i: nat, j: nat)
    requires |b| == BATCH_SIZE && i <= BATCH_PACKETS
    ensures j in ValidFrom(b, i) <==> i <= j < BATCH_PACKETS && PacketOk(Slot(b, j), j)
    decreases BATCH_PACKETS - i
  {
    if i == BATCH_PACKETS {
      assert ValidFrom(b, i) == [];
    } else {
      ValidFromMembers(b, i + 1, j);
      if PacketOk(Slot(b, i), i) {
        assert ValidFrom(b, i) == [i] + ValidFrom(b, i + 1);
      } else {
        assert ValidFrom(b, i) == ValidFrom(b, i + 1);
      }
    }
  }

  /** When every slot from `i` on carries the `0A 00` header, no header
      error is counted: each failing slot is a sequence error. */
  lemma {:induction false} HeadersOkSlots(c: Counts, b: seq<byte>, i: nat, seqs: seq<nat>)
    requires |b| == BATCH_SIZE && i <= BATCH_PACKETS
    requires forall j :: i <= j < BATCH_PACKETS ==> Slot(b, j)[0] == HEADER_0 && Slot(b, j)[1] == HEADER_1
    ensures var r := Slots(c, b, i, seqs).0;
      var n := |ValidFrom(b, i)|;
      && r.totalPackets == c.totalPackets + n
      && r.sequenceErrors + n == c.sequenceErrors + (BATCH_PACKETS - i)
      && r.headerErrors == c.headerErrors
      && r.totalBatches == c.totalBatches && r.sizeErrors == c.sizeErrors
    decreases BATCH_PACKETS - i
  {
    if i == BATCH_PACKETS {
      assert Slots(c, b, i, seqs) == (c, seqs);
      assert ValidFrom(b, i) == [];
    } else {
      var p := Slot(b, i);
      var r := CheckPacket(c, p, i);
      SlotsStep(c, b, i, seqs);
      var n := |ValidFrom(b, i + 1)|;
      if r.1 {
        var c' := c.(totalPackets := c.totalPackets + 1);
        assert r.0 == c;
        var g := Slots(c', b, i + 1, seqs + [i]).0;
        assert Slots(c, b, i, seqs).0 == g;
        assert |ValidFrom(b, i)| == 1 + n;
        HeadersOkSlots(c', b, i + 1, seqs + [i]);
      } else {
        assert r.0 == c.(sequenceErrors := c.sequenceErrors + 1);
        var g := Slots(r.0, b, i + 1, seqs).0;
        assert Slots(c, b, i, seqs).0 == g;
        assert |ValidFrom(b, i)| == n;
        HeadersOkSlots(r.0, b, i + 1, seqs);
      }
    }
  }

  /** A whole batch whose eight headers are right: one batch and one packet
      per passing slot are counted, every failing slot is one sequence
      error, the batch adds one more when any slot fails, and the header
      and size counters stay as they were. */
  lemma {:induction false} HeadersOkBatch(c: Counts, b: seq<byte>)
    requires |b| == BATCH_SIZE
    requires forall j :: 0 <= j < BATCH_PACKETS ==> Slot(b, j)[0] == HEADER_0 && Slot(b, j)[1] == HEADER_1
    ensures var r := BatchSpec(c, b);
      var n := |ValidFrom(b, 0)|;
      && r.totalBatches == c.totalBatches + 1
      && r.totalPackets == c.totalPackets + n
      && r.sequenceErrors + n == c.sequenceErrors + BATCH_PACKETS + (if n == BATCH_PACKETS then 0 else 1)
      && r.headerErrors == c.headerErrors && r.sizeErrors == c.sizeErrors
  {
    var c1 := c.(totalBatches := c.totalBatches + 1);
    BatchSpecUnfold(c, b);
    HeadersOkSlots(c1, b, 0, []);
    SlotsCollect(c1, b, 0, []);
    var v := ValidFrom(b, 0);
    assert [] + v == v;
    RangeAll();
    if |v| == BATCH_PACKETS {
      ValidFromIsRange(b, 0);
    } else {
      RangeLength(0);
    }
  }

  // ---------------------------------------------------------------------
  // The connection loop
  // ---------------------------------------------------------------------

  /** The inner `while` loop of `handle_client`: cut whole batches off the
      front of the buffer while there is one. */
  function Drain(c: Counts, buf: seq<byte>): (Counts, seq<byte>)
    decreases |buf|
  {
    if |buf| < BATCH_SIZE then (c, buf) else Drain(BatchSpec(c, buf[..BATCH_SIZE]), buf[BATCH_SIZE..])
  }

  /** The leftover is always shorter than a batch. */
  lemma {:induction false} DrainLeftover(c: Counts, buf: seq<byte>)
    ensures |Drain(c, buf).1| < BATCH_SIZE
    decreases |buf|
  {
    if |buf| >= BATCH_SIZE {
      DrainLeftover(BatchSpec(c, buf[..BATCH_SIZE]), buf[BATCH_SIZE..]);
    }
  }

  lemma {:induction false} DrainExtends(c: Counts, buf: seq<byte>, more: seq<byte>)
    ensures Drain(c, buf + more) == Drain(Drain(c, buf).0, Drain(c, buf).1 + more)
    decreases |buf|
  {
    if |buf| >= BATCH_SIZE {
      assert (buf + more)[..BATCH_SIZE] == buf[..BATCH_SIZE];
      assert (buf + more)[BATCH_SIZE..] == buf[BATCH_SIZE..] + more;
      DrainExtends(BatchSpec(c, buf[..BATCH_SIZE]), buf[BATCH_SIZE..], more);
    }
  }

  /** The receiver's state: the counters and `total_bytes_received`. */
  datatype Receiver = Receiver(counts: Counts, totalBytes: nat)

  /** `handle_client` from a given buffer, on the chunks `recv` still
      returns. An empty chunk is the close; so is the end of the list. The
      buffer is local to the call, and what is left in it is dropped. */
  function ClientSpec(s: Receiver, buf: seq<byte>, chunks: seq<seq<byte>>): Receiver
    decreases |chunks|
  {
    if chunks == [] || chunks[0] == [] then s
    else
      var d := Drain(s.counts, buf + chunks[0]);
      ClientSpec(Receiver(d.0, s.totalBytes + |chunks[0]|), d.1, chunks[1..])
  }

  /** Batching does not depend on how the stream is cut into chunks: a
      connection does what one chunk holding all its bytes would do. */
  lemma {:induction false} ChunkingIndependent(s: Receiver, buf: seq<byte>, chunks: seq<seq<byte>>)
    requires |buf| < BATCH_SIZE
    requires forall k :: 0 <= k < |chunks| ==> chunks[k] != []
    ensures ClientSpec(s, buf, chunks)
         == Receiver(Drain(s.counts, buf + Concat(chunks)).0, s.totalBytes + |Concat(chunks)|)
    decreases |chunks|
  {
    if chunks == [] {
      assert buf + Concat(chunks) == buf;
    } else {
      var x := chunks[0];
      var rest := Concat(chunks[1..]);
      var d := Drain(s.counts, buf + x);
      DrainLeftover(s.counts, buf + x);
      ChunkingIndependent(Receiver(d.0, s.totalBytes + |x|), d.1, chunks[1..]);
      DrainExtends(s.counts, buf + x, rest);
      assert Concat(chunks) == x + rest;
      assert buf + x + rest == buf + Concat(chunks);
    }
  }

  // ---------------------------------------------------------------------
  // The receiver object
  // ---------------------------------------------------------------------

  class LidarBatchReceiver {
    var totalBatchesReceived: nat
    var totalPacketsReceived: nat
    var totalBytesReceived: nat
    var sequenceErrors: nat
    var headerErrors: nat
    var sizeErrors: nat

    ghost function Counters(): Counts
      reads this
    {
      Counts(totalBatchesReceived, totalPacketsReceived, sequenceErrors, headerErrors, sizeErrors)
    }

    ghost function View(): Receiver
      reads this
    {
      Receiver(Counters(), totalBytesReceived)
    }

    constructor()
      ensures View() == Receiver(Zero, 0)
    {
      totalBatchesReceived := 0;
      totalPacketsReceived := 0;
      totalBytesReceived := 0;
      sequenceErrors := 0;
      headerErrors := 0;
      sizeErrors := 0;
    }

    /** `validate_packet`. */
    method ValidatePacket(packetData: seq<byte>, expectedIndex: nat) returns (ok: bool)
      modifies this
      ensures (Counters(), ok) == CheckPacket(old(Counters()), packetData, expectedIndex)
      ensures totalBytesReceived == old(totalBytesReceived)
    {
      if |packetData| < 4 {
        return false;
      }
      if packetData[0] != HEADER_0 || packetData[1] != HEADER_1 {
        headerErrors := headerErrors + 1;
        return false;
      }
      var sequence := LowNibble(packetData[2]);
      if sequence != expectedIndex {
        sequenceErrors := sequenceErrors + 1;
        return false;
      }
      return true;
    }

    /** `validate_batch_sequences`. */
    method ValidateBatchSequences(sequences: seq<nat>)
      modifies this
      ensures Counters() == SequencesCheck(old(Counters()), sequences)
      ensures totalBytesReceived == old(totalBytesReceived)
    {
      if sequences != ALL_SEQUENCES {
        sequenceErrors := sequenceErrors + 1;
      }
    }

    /** `process_batch`. */
    method ProcessBatch(batchData: seq<byte>)
      modifies this
      ensures Counters() == BatchSpec(old(Counters()), batchData)
      ensures totalBytesReceived == old(totalBytesReceived)
    {
      if |batchData| != BATCH_SIZE {
        sizeErrors := sizeErrors + 1;
        return;
      }
      ghost var c0 := Counters();
      totalBatchesReceived := totalBatchesReceived + 1;
      var sequences: seq<nat> := [];
      ghost var c1 := Counters();
      assert c1 == c0.(totalBatches := c0.totalBatches + 1);
      ghost var goal := Slots(c1, batchData, 0, []);
      BatchSpecUnfold(c0, batchData);
      for i := 0 to BATCH_PACKETS
        invariant Slots(Counters(), batchData, i, sequences) == goal
        invariant totalBytesReceived == old(totalBytesReceived)
      {
        ghost var c := Counters();
        ghost var seqs0 := sequences;
        ghost var r := CheckPacket(c, Slot(batchData, i), i);
        SlotsStep(c, batchData, i, sequences);
        var packetStart := i * PACKET_SIZE;
        var packetData := batchData[packetStart..packetStart + PACKET_SIZE];
        assert packetData == Slot(batchData, i);
        var ok := ValidatePacket(packetData, i);
        assert Counters() == r.0 && ok == r.1;
        if ok {
          var sequence := LowNibble(packetData[2]);
          assert sequence == i;
          sequences := sequences + [sequence];
          totalPacketsReceived := totalPacketsReceived + 1;
          assert Slots(Counters(), batchData, i + 1, sequences)
              == Slots(r.0.(totalPackets := r.0.totalPackets + 1), batchData, i + 1, seqs0 + [i]);
        }
      }
      assert goal == (Counters(), sequences);
      ValidateBatchSequences(sequences);
    }

    /** `handle_client` on a connection whose `recv` calls return `chunks`. */
    method HandleClient(chunks: seq<seq<byte>>)
      modifies this
      ensures View() == ClientSpec(old(View()), [], chunks)
    {
      var buffer: seq<byte> := [];
      var k := 0;
      ghost var goal := ClientSpec(View(), [], chunks);
      while k < |chunks|
        invariant k <= |chunks|
        invariant ClientSpec(View(), buffer, chunks[k..]) == goal
      {
        var data := chunks[k];
        assert chunks[k..][0] == data;
        if data == [] {
          break;
        }
        ghost var d := Drain(Counters(), buffer + data);
        assert chunks[k..][1..] == chunks[k + 1..];
        buffer := buffer + data;
        totalBytesReceived := totalBytesReceived + |data|;
        ghost var bytes := totalBytesReceived;
        while |buffer| >= BATCH_SIZE
          invariant Drain(Counters(), buffer) == d
          invariant totalBytesReceived == bytes
          decreases |buffer|
        {
          var batchData := buffer[..BATCH_SIZE];
          buffer := buffer[BATCH_SIZE..];
          ProcessBatch(batchData);
        }
        k := k + 1;
      }
    }
  }
}
