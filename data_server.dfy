/** The frame-validating TCP server for the legacy 44-byte packet stream
    (get_data_server.py).

    Received bytes are appended to a buffer that is consumed in fixed
    44-byte strides, with no resynchronisation. Each stride is validated as a
    packet, and valid packets are assembled, in sequence order, into frames of
    eight. The module has pure specification functions over `Assembly` and
    `Processor` values with the lemmas about them, and the class
    `LidarDataProcessor`, whose methods are proved equal to those functions. */
module DataServer {
  import opened Bytes

  /** `LIDAR_PACKET_SIZE` and `LIDAR_FRAME_PACKETS`. */
  const PACKET_SIZE: nat := 44
  const FRAME_PACKETS: nat := 8

  /** The `LidarPacket` record that `validate_packet` builds. */
  datatype Packet = Packet(header: seq<byte>, sequence: byte, reserved: byte, data: seq<byte>)

  /** The bytes of a packet, header first, as the frame logger rebuilds them. */
  function Wire(p: Packet): seq<byte>
  {
    p.header + [p.sequence, p.reserved] + p.data
  }

  /** The checks of `validate_packet`: the length, the header, the whole of
      byte 2 (no masking) at most 7, and a zero reserved byte. */
  predicate WellFormed(data: seq<byte>)
  {
    |data| == PACKET_SIZE && data[0] == HEADER_0 && data[1] == HEADER_1 && data[2] <= 7 && data[3] == 0
  }

  /** `validate_packet`: a packet exactly when the checks pass. The packet's
      fields are the input cut apart, so writing it back gives the input. */
  function ValidatePacket(data: seq<byte>): (r: Option<Packet>)
    ensures r.Some? <==> WellFormed(data)
    ensures r.Some? ==> r.value.sequence == data[2] && |r.value.data| == 40 && Wire(r.value) == data
  {
    if |data| != PACKET_SIZE then None
    else if data[0] != HEADER_0 || data[1] != HEADER_1 then None
    else if data[2] > 7 then None
    else if data[3] != 0 then None
    else
      assert data[0..2] + [data[2], data[3]] + data[4..44] == data;
      Some(Packet(data[0..2], data[2], data[3], data[4..44]))
  }

  /** A frame passes `validate_frame` when it has eight packets and packet
      `i` carries sequence `i`. */
  predicate FrameOk(packets: seq<Packet>)
  {
    |packets| == FRAME_PACKETS && forall i :: 0 <= i < |packets| ==> packets[i].sequence == i
  }

  /** `validate_frame`. */
  method ValidateFrame(packets: seq<Packet>) returns (ok: bool)
    ensures ok <==> FrameOk(packets)
  {
    if |packets| != FRAME_PACKETS {
      return false;
    }
    var i := 0;
    while i < |packets|
      invariant 0 <= i <= |packets|
      invariant forall j :: 0 <= j < i ==> packets[j].sequence == j
    {
      if packets[i].sequence != i {
        return false;
      }
      i := i + 1;
    }
    return true;
  }

  // ---------------------------------------------------------------------
  // The processor's state, as a value
  // ---------------------------------------------------------------------

  /** The `Statistics` counters other than `total_bytes`. */
  datatype Counts = Counts(totalPackets: nat, validPackets: nat, invalidPackets: nat,
                           totalFrames: nat, validFrames: nat, invalidFrames: nat)

  /** The frame under assembly (`current_frame_packets`), `expected_sequence`
      and the counters. */
  datatype Assembly = Assembly(frame: seq<Packet>, expected: nat, counts: Counts)

  /** The whole processor: `total_bytes`, `packet_buffer` and the assembly. */
  datatype Processor = Processor(totalBytes: nat, buffer: seq<byte>, asm: Assembly)

  const Initial: Processor := Processor(0, [], Assembly([], 0, Counts(0, 0, 0, 0, 0, 0)))

  /** What holds between calls: the frame holds packets 0, 1, ... in order,
      `expected_sequence` is its length and below eight, every packet is
      counted valid or invalid, and every counted frame was a valid one. */
  ghost predicate Inv(a: Assembly)
  {
    && |a.frame| == a.expected < FRAME_PACKETS
    && (forall i :: 0 <= i < |a.frame| ==> a.frame[i].sequence == i)
    && a.counts.validPackets + a.counts.invalidPackets == a.counts.totalPackets
    && a.counts.totalFrames == a.counts.validFrames
  }

  /** `_handle_complete_frame`. */
  function CompleteFrame(a: Assembly): Assembly
  {
    var c := a.counts.(totalFrames := a.counts.totalFrames + 1);
    var c' := if FrameOk(a.frame) then c.(validFrames := c.validFrames + 1)
              else c.(invalidFrames := c.invalidFrames + 1);
    Assembly([], 0, c')
  }

  /** `_handle_incomplete_frame`: only the counter; the caller replaces the frame. */
  function IncompleteFrame(a: Assembly): Assembly
  {
    a.(counts := a.counts.(invalidFrames := a.counts.invalidFrames + 1))
  }

  /** `_handle_sequence_error`. */
  function SequenceError(a: Assembly, p: Packet): Assembly
  {
    var c := a.counts.(invalidFrames := a.counts.invalidFrames + 1);
    if p.sequence == 0 then Assembly([p], 1, c) else Assembly([], 0, c)
  }

  /** The frame assembly of `process_data` for one valid packet. */
  function Assemble(a: Assembly, p: Packet): Assembly
  {
    if p.sequence == 0 then
      var a' := if a.frame != [] then IncompleteFrame(a) else a;
      a'.(frame := [p], expected := 1)
    else if p.sequence == a.expected && a.frame != [] then
      var a' := a.(frame := a.frame + [p], expected := a.expected + 1);
      if |a'.frame| == FRAME_PACKETS then CompleteFrame(a') else a'
    else
      SequenceError(a, p)
  }

  /** One 44-byte stride of `process_data`. */
  function Consume(a: Assembly, chunk: seq<byte>): Assembly
  {
    var c := a.counts.(totalPackets := a.counts.totalPackets + 1);
    match ValidatePacket(chunk)
    case None => a.(counts := c.(invalidPackets := c.invalidPackets + 1))
    case Some(p) => Assemble(a.(counts := c.(validPackets := c.validPackets + 1)), p)
  }

  /** The `while` loop of `process_data`: consume 44-byte strides while the
      buffer holds at least one; the leftover buffer and the assembly. */
  function Drain(buf: seq<byte>, a: Assembly): (seq<byte>, Assembly)
    decreases |buf|
  {
    if |buf| < PACKET_SIZE then (buf, a)
    else Drain(buf[PACKET_SIZE..], Consume(a, buf[..PACKET_SIZE]))
  }

  /** The leftover is a suffix shorter than a packet. The part cut off is
      whole strides, and each of them was counted. */
  lemma {:induction false} DrainLeftover(buf: seq<byte>, a: Assembly)
    ensures var r := Drain(buf, a);
      && |r.0| <= |buf| && |r.0| < 44 && r.0 == buf[|buf| - |r.0|..]
      && 44 * r.1.counts.totalPackets == 44 * a.counts.totalPackets + |buf| - |r.0|
    decreases |buf|
  {
    if |buf| >= PACKET_SIZE {
      var a' := Consume(a, buf[..PACKET_SIZE]);
      ConsumeCounts(a, buf[..PACKET_SIZE]);
      DrainLeftover(buf[PACKET_SIZE..], a');
      var r := Drain(buf[PACKET_SIZE..], a');
      assert buf[PACKET_SIZE..][|buf| - PACKET_SIZE - |r.0|..] == buf[|buf| - |r.0|..];
    }
  }

  /** A stride counts one packet, valid or not. */
  lemma {:induction false} ConsumeCounts(a: Assembly, chunk: seq<byte>)
    ensures Consume(a, chunk).counts.totalPackets == a.counts.totalPackets + 1
  {
    var c := a.counts.(totalPackets := a.counts.totalPackets + 1);
    match ValidatePacket(chunk)
    case None =>
    case Some(p) =>
      var a' := a.(counts := c.(validPackets := c.validPackets + 1));
      AssembleKeepsPacketCounts(a', p);
  }

  /** Frame assembly leaves the packet counters alone. */
  lemma {:induction false} AssembleKeepsPacketCounts(a: Assembly, p: Packet)
    ensures Assemble(a, p).counts.totalPackets == a.counts.totalPackets
    ensures Assemble(a, p).counts.validPackets == a.counts.validPackets
    ensures Assemble(a, p).counts.invalidPackets == a.counts.invalidPackets
  {
  }

  /** One turn of the loop. */
  lemma {:induction false} DrainStep(buf: seq<byte>, a: Assembly)
    requires |buf| >= PACKET_SIZE
    ensures Drain(buf, a) == Drain(buf[PACKET_SIZE..], Consume(a, buf[..PACKET_SIZE]))
  {
  }

  /** `process_data(data)`. */
  function DataSpec(p: Processor, data: seq<byte>): Processor
  {
    var r := Drain(p.buffer + data, p.asm);
    Processor(p.totalBytes + |data|, r.0, r.1)
  }

  // ---------------------------------------------------------------------
  // Properties
  // ---------------------------------------------------------------------

  /** The outcome of assembling one valid packet, case by case. Sequence 0
      always starts a new one-packet frame, and a non-empty previous frame
      counts as one invalid frame. The next expected sequence is appended,
      and the eighth packet completes a frame that is always counted valid.
      Anything else counts one invalid frame and clears the frame. So the
      branch of `_handle_sequence_error` that restarts on sequence 0 is never
      taken. */
  lemma {:induction false} AssembleCases(a: Assembly, p: Packet)
    requires Inv(a) && p.sequence <= 7
    ensures var r := Assemble(a, p);
      && (p.sequence == 0 ==>
            r.frame == [p] && r.expected == 1
            && r.counts == a.counts.(invalidFrames := a.counts.invalidFrames + (if a.frame == [] then 0 else 1)))
      && (p.sequence != 0 && p.sequence == a.expected && a.expected + 1 < FRAME_PACKETS ==>
            r.frame == a.frame + [p] && r.expected == a.expected + 1 && r.counts == a.counts)
      && (p.sequence != 0 && p.sequence == a.expected && a.expected + 1 == FRAME_PACKETS ==>
            r.frame == [] && r.expected == 0
            && r.counts == a.counts.(totalFrames := a.counts.totalFrames + 1, validFrames := a.counts.validFrames + 1))
      && (p.sequence != 0 && p.sequence != a.expected ==>
            r.frame == [] && r.expected == 0 && r.counts == a.counts.(invalidFrames := a.counts.invalidFrames + 1))
  {
    if p.sequence != 0 && p.sequence == a.expected && a.expected + 1 == FRAME_PACKETS {
      var f := a.frame + [p];
      assert forall i :: 0 <= i < |f| ==> f[i].sequence == i by {
        forall i | 0 <= i < |f| ensures f[i].sequence == i {
          if i < |a.frame| {
            assert f[i] == a.frame[i];
          }
        }
      }
      assert FrameOk(f);
    }
  }

  /** Assembling a valid packet keeps the invariant. */
  lemma {:induction false} AssembleKeepsInv(a: Assembly, p: Packet)
    requires Inv(a) && p.sequence <= 7
    ensures Inv(Assemble(a, p))
  {
    AssembleCases(a, p);
    var r := Assemble(a, p);
    if p.sequence != 0 && p.sequence == a.expected && a.expected + 1 < FRAME_PACKETS {
      forall i | 0 <= i < |r.frame| ensures r.frame[i].sequence == i {
        if i < |a.frame| {
          assert r.frame[i] == a.frame[i];
        }
      }
    }
  }

  /** Consuming one stride keeps the invariant and counts one packet. */
  lemma {:induction false} ConsumeKeepsInv(a: Assembly, chunk: seq<byte>)
    requires Inv(a)
    ensures Inv(Consume(a, chunk))
  {
    var c := a.counts.(totalPackets := a.counts.totalPackets + 1);
    match ValidatePacket(chunk)
    case None =>
    case Some(p) =>
      var a' := a.(counts := c.(validPackets := c.validPackets + 1));
      AssembleKeepsInv(a', p);
      AssembleKeepsPacketCounts(a', p);
  }

  /** Draining keeps the invariant. */
  lemma {:induction false} DrainKeepsInv(buf: seq<byte>, a: Assembly)
    requires Inv(a)
    ensures Inv(Drain(buf, a).1)
    decreases |buf|
  {
    if |buf| >= PACKET_SIZE {
      ConsumeKeepsInv(a, buf[..PACKET_SIZE]);
      DrainKeepsInv(buf[PACKET_SIZE..], Consume(a, buf[..PACKET_SIZE]));
    }
  }

  /** Draining `buf + b` is draining `buf` and then draining its leftover
      followed by `b`. */
  lemma {:induction false} DrainExtends(buf: seq<byte>, b: seq<byte>, a: Assembly)
    ensures Drain(buf + b, a) == Drain(Drain(buf, a).0 + b, Drain(buf, a).1)
    decreases |buf|
  {
    if |buf| >= PACKET_SIZE {
      assert (buf + b)[..PACKET_SIZE] == buf[..PACKET_SIZE];
      assert (buf + b)[PACKET_SIZE..] == buf[PACKET_SIZE..] + b;
      DrainExtends(buf[PACKET_SIZE..], b, Consume(a, buf[..PACKET_SIZE]));
    }
  }

  /** The processor's state does not depend on how the stream is cut into
      `recv` chunks: two calls do what one call on the joined data does. */
  lemma {:induction false} ChunkingIndependent(p: Processor, x: seq<byte>, y: seq<byte>)
    ensures DataSpec(DataSpec(p, x), y) == DataSpec(p, x + y)
  {
    var d := Drain(p.buffer + x, p.asm);
    var q := DataSpec(p, x);
    assert q == Processor(p.totalBytes + |x|, d.0, d.1);
    DrainExtends(p.buffer + x, y, p.asm);
    var e := Drain(q.buffer + y, q.asm);
    assert e == Drain(p.buffer + x + y, p.asm);
    assert p.buffer + x + y == p.buffer + (x + y);
    assert DataSpec(q, y) == Processor(q.totalBytes + |y|, e.0, e.1);
  }

  /** After a call the buffer is shorter than a packet, and `total_packets`
      grew by the number of whole packets in the old buffer plus the data. */
  lemma {:induction false} DataSpecCounts(p: Processor, data: seq<byte>)
    ensures |DataSpec(p, data).buffer| < PACKET_SIZE
    ensures DataSpec(p, data).asm.counts.totalPackets
         == p.asm.counts.totalPackets + (|p.buffer| + |data|) / 44
  {
    var n := |p.buffer| + |data|;
    DrainLeftover(p.buffer + data, p.asm);
    var r := DataSpec(p, data);
    var k := r.asm.counts.totalPackets - p.asm.counts.totalPackets;
    assert 44 * k == n - |r.buffer|;
    assert n / 44 == k by {
      assert n == 44 * k + |r.buffer| && 0 <= |r.buffer| < 44;
    }
  }

  /** Whatever arrives, a call keeps the invariant. */
  lemma {:induction false} DataSpecKeepsInv(p: Processor, data: seq<byte>)
    requires Inv(p.asm)
    ensures Inv(DataSpec(p, data).asm)
  {
    DrainKeepsInv(p.buffer + data, p.asm);
  }

  // ---------------------------------------------------------------------
  // The processor object
  // ---------------------------------------------------------------------

  /** `LidarDataProcessor`: the buffer, the frame under assembly and the
      `Statistics` counters as fields. */
  class LidarDataProcessor {
    var packetBuffer: seq<byte>
    var currentFramePackets: seq<Packet>
    var expectedSequence: nat
    var totalBytes: nat
    var totalPackets: nat
    var validPackets: nat
    var invalidPackets: nat
    var totalFrames: nat
    var validFrames: nat
    var invalidFrames: nat

    ghost function Asm(): Assembly
      reads this
    {
      Assembly(currentFramePackets, expectedSequence,
               Counts(totalPackets, validPackets, invalidPackets, totalFrames, validFrames, invalidFrames))
    }

    ghost function View(): Processor
      reads this
    {
      Processor(totalBytes, packetBuffer, Asm())
    }

    constructor()
      ensures View() == Initial && Inv(View().asm)
    {
      packetBuffer := [];
      currentFramePackets := [];
      expectedSequence := 0;
      totalBytes := 0;
      totalPackets := 0;
      validPackets := 0;
      invalidPackets := 0;
      totalFrames := 0;
      validFrames := 0;
      invalidFrames := 0;
    }

    method HandleCompleteFrame()
      modifies this
      ensures Asm() == CompleteFrame(old(Asm()))
      ensures packetBuffer == old(packetBuffer) && totalBytes == old(totalBytes)
    {
      totalFrames := totalFrames + 1;
      var ok := ValidateFrame(currentFramePackets);
      if ok {
        validFrames := validFrames + 1;
      } else {
        invalidFrames := invalidFrames + 1;
      }
      currentFramePackets := [];
      expectedSequence := 0;
    }

    method HandleIncompleteFrame()
      modifies this
      ensures Asm() == IncompleteFrame(old(Asm()))
      ensures packetBuffer == old(packetBuffer) && totalBytes == old(totalBytes)
    {
      invalidFrames := invalidFrames + 1;
    }

    method HandleSequenceError(packet: Packet)
      modifies this
      ensures Asm() == SequenceError(old(Asm()), packet)
      ensures packetBuffer == old(packetBuffer) && totalBytes == old(totalBytes)
    {
      invalidFrames := invalidFrames + 1;
      currentFramePackets := [];
      if packet.sequence == 0 {
        currentFramePackets := [packet];
        expectedSequence := 1;
      } else {
        expectedSequence := 0;
      }
    }

    /** The frame assembly step of `process_data` for a valid packet. */
    method AssemblePacket(packet: Packet)
      modifies this
      ensures Asm() == Assemble(old(Asm()), packet)
      ensures packetBuffer == old(packetBuffer) && totalBytes == old(totalBytes)
    {
      if packet.sequence == 0 {
        if currentFramePackets != [] {
          HandleIncompleteFrame();
        }
        currentFramePackets := [packet];
        expectedSequence := 1;
      } else if packet.sequence == expectedSequence && currentFramePackets != [] {
        currentFramePackets := currentFramePackets + [packet];
        expectedSequence := expectedSequence + 1;
        if |currentFramePackets| == FRAME_PACKETS {
          HandleCompleteFrame();
        }
      } else {
        HandleSequenceError(packet);
      }
    }

    /** The body of the `while` loop of `process_data` for one stride. */
    method ConsumePacket(packetData: seq<byte>)
      modifies this
      ensures Asm() == Consume(old(Asm()), packetData)
      ensures packetBuffer == old(packetBuffer) && totalBytes == old(totalBytes)
    {
      totalPackets := totalPackets + 1;
      var packet := ValidatePacket(packetData);
      if packet.None? {
        invalidPackets := invalidPackets + 1;
        return;
      }
      validPackets := validPackets + 1;
      AssemblePacket(packet.value);
    }

    /** `process_data`. */
    method ProcessData(data: seq<byte>)
      modifies this
      ensures View() == DataSpec(old(View()), data)
    {
      ghost var v0 := View();
      totalBytes := totalBytes + |data|;
      packetBuffer := packetBuffer + data;
      ghost var goal := Drain(packetBuffer, Asm());
      assert DataSpec(v0, data) == Processor(totalBytes, goal.0, goal.1);
      while |packetBuffer| >= PACKET_SIZE
        invariant Drain(packetBuffer, Asm()) == goal
        invariant totalBytes == old(totalBytes) + |data|
        decreases |packetBuffer|
      {
        DrainStep(packetBuffer, Asm());
        var packetData := packetBuffer[..PACKET_SIZE];
        packetBuffer := packetBuffer[PACKET_SIZE..];
        ConsumePacket(packetData);
      }
      assert goal == (packetBuffer, Asm());
      assert View() == Processor(totalBytes, goal.0, goal.1);
    }
  }
}
