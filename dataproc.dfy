/** The legacy framer and frame assembler (main/dataproc.c).

    The UART task feeds bytes one at a time through a header-search state
    machine. Once `0A 00` has been seen, it collects exactly one packet and
    validates it. Valid packets are assembled in sequence order into a frame
    of N packets. Each complete frame is copied into a ring of C frames, and
    the ring is written to the TCP socket when it is full.

    The packet size P, the packets per frame N and the ring size C come from
    macros that no shown header defines consistently, so they are parameters
    (`Params`). The module has two layers: pure specification functions over
    `Framer` and `Ring` values with the lemmas about them, and the classes
    `FrameBuffer` (the ring globals and `send_buffered_frames`) and
    `UartToSockTask` (the UART task's static state and its byte loop), whose
    methods are proved equal to those functions. */
module Dataproc {
  import opened Bytes
  import LidarPacket

  /** P = `LIDAR_PACKET_SIZE`, N = `LIDAR_FRAME_PACKETS`, C = `FRAME_BUFFER_COUNT`.
      A frame is N packets of P bytes (`LIDAR_FRAME_SIZE` = N * P). */
  datatype Params = Params(packetSize: nat, framePackets: nat, bufferCount: nat)
  {
    /** The validator reads bytes 0..3, and a frame and the ring are never empty. */
    predicate Ok()
    {
      packetSize >= 4 && framePackets >= 1 && bufferCount >= 1
    }

    function FrameSize(): nat
    {
      packetSize * framePackets
    }
  }

  // ---------------------------------------------------------------------
  // Packet and frame validation
  // ---------------------------------------------------------------------

  /** `validate_lidar_packet`: the length, the header, the whole of byte 2
      (no masking) at most 7, then the reserved byte. */
  function ValidateLidarPacket(k: Params, data: seq<byte>): (ok: bool)
    requires k.Ok()
    ensures ok ==> |data| == k.packetSize && data[0] == HEADER_0 && data[1] == HEADER_1 && data[2] < 8 && data[3] == 0
  {
    if |data| != k.packetSize then false
    else if data[0] != HEADER_0 || data[1] != HEADER_1 then false
    else if data[2] > 7 then false
    else data[3] == 0
  }

  /** For every packet size, the legacy check is the length check plus the
      current check (`lidar_validate_packet`, which masks byte 2 to its low
      nibble) plus a zero high nibble in byte 2. */
  lemma LegacyValidationIsStricter(k: Params, data: seq<byte>)
    requires k.Ok()
    ensures ValidateLidarPacket(k, data)
        <==> |data| == k.packetSize && LidarPacket.ValidatePacket(data) && data[2] < 16
  {
    if |data| == k.packetSize && data[2] < 16 {
      assert LowNibble(data[2]) == data[2];
    }
  }

  /** A packet whose byte 2 is 0x13 passes the current check (sequence 3) and
      fails the legacy one. */
  lemma HighNibbleSplitsTheValidators()
    ensures var p := [HEADER_0, HEADER_1, 0x13, 0] + seq(LidarPacket.PACKET_SIZE - 4, _ => 0);
      && |p| == LidarPacket.PACKET_SIZE
      && LidarPacket.ValidatePacket(p)
      && !ValidateLidarPacket(Params(LidarPacket.PACKET_SIZE, 8, 1), p)
  {
    var p := [HEADER_0, HEADER_1, 0x13, 0] + seq(LidarPacket.PACKET_SIZE - 4, _ => 0);
    assert p[2] == 0x13 && LowNibble(p[2]) == 3;
  }

  /** The fields `validate_frame` checks in packet `i` of a frame. */
  predicate PacketOk(p: seq<byte>, i: nat)
  {
    |p| >= 4 && p[0] == HEADER_0 && p[1] == HEADER_1 && p[2] == i && p[3] == 0
  }

  /** Every packet of the frame has the header, its own index as sequence and
      a zero reserved byte. */
  predicate FrameOk(k: Params, frame: seq<seq<byte>>)
  {
    |frame| == k.framePackets && forall i :: 0 <= i < |frame| ==> PacketOk(frame[i], i)
  }

  /** `validate_frame`. */
  method ValidateFrame(k: Params, frame: seq<seq<byte>>) returns (ok: bool)
    requires |frame| == k.framePackets
    requires forall i :: 0 <= i < |frame| ==> |frame[i]| >= 4
    ensures ok <==> FrameOk(k, frame)
  {
    var i := 0;
    while i < k.framePackets
      invariant 0 <= i <= k.framePackets
      invariant forall j :: 0 <= j < i ==> PacketOk(frame[j], j)
    {
      if frame[i][0] != HEADER_0 || frame[i][1] != HEADER_1 {
        return false;
      }
      if frame[i][2] != i {
        return false;
      }
      if frame[i][3] != 0 {
        return false;
      }
      i := i + 1;
    }
    return true;
  }

  // ---------------------------------------------------------------------
  // The UART task's state, as a value
  // ---------------------------------------------------------------------

  function Zeros(n: nat): seq<byte>
  {
    seq(n, _ => 0)
  }

  /** `memset(&current_frame, 0, ...)`. */
  function ZeroFrame(k: Params): seq<seq<byte>>
  {
    seq(k.framePackets, _ => Zeros(k.packetSize))
  }

  /** The static variables of `uart_to_sock_task`. */
  datatype Framer = Framer(
    scratch: seq<byte>,        // packet_buf[0 .. packet_pos)
    headerFound: bool,         // header_found
    frame: seq<seq<byte>>,     // current_frame.packets
    count: nat,                // frame_packet_count
    started: bool,             // frame_started
    totalBytes: nat,           // total_bytes_received
    totalPackets: nat,         // total_packets_processed
    validPackets: nat,
    invalidPackets: nat,
    validFrames: nat,
    invalidFrames: nat,
    discarded: nat)            // discarded_bytes

  function InitialFramer(k: Params): Framer
  {
    Framer([], false, ZeroFrame(k), 0, false, 0, 0, 0, 0, 0, 0, 0)
  }

  /** What the header search keeps between bytes: fewer than P bytes; once the
      header is found they start with `0A 00`, and before that they are empty
      or a lone 0x0A. */
  ghost predicate ScratchInv(k: Params, f: Framer)
  {
    && |f.scratch| < k.packetSize
    && (f.headerFound <==> |f.scratch| >= 2)
    && (|f.scratch| >= 1 ==> f.scratch[0] == HEADER_0)
    && (|f.scratch| >= 2 ==> f.scratch[1] == HEADER_1)
  }

  /** What frame assembly keeps between packets: the first `count` slots hold
      valid packets numbered 0, 1, ... in order, and a frame in progress is
      always marked as started. */
  ghost predicate FrameInv(k: Params, f: Framer)
  {
    && |f.frame| == k.framePackets
    && (forall i :: 0 <= i < |f.frame| ==> |f.frame[i]| == k.packetSize)
    && f.count < k.framePackets
    && (f.count > 0 ==> f.started)
    && (forall i :: 0 <= i < f.count ==> PacketOk(f.frame[i], i))
  }

  ghost predicate FramerInv(k: Params, f: Framer)
  {
    k.Ok() && ScratchInv(k, f) && FrameInv(k, f)
  }

  lemma InitialFramerInv(k: Params)
    requires k.Ok()
    ensures FramerInv(k, InitialFramer(k))
  {
  }

  // ---------------------------------------------------------------------
  // One byte
  // ---------------------------------------------------------------------

  /** Header search: accept 0x0A into an empty scratch and 0x00 after it.
      Anything else discards the scratch and the byte, except that a 0x0A is
      kept as the start of a new header. */
  function SearchStep(f: Framer, b: byte): Framer
  {
    if |f.scratch| == 0 && b == HEADER_0 then
      f.(scratch := [b])
    else if |f.scratch| == 1 && b == HEADER_1 then
      f.(scratch := f.scratch + [b], headerFound := true)
    else
      f.(scratch := if b == HEADER_0 then [b] else [],
         discarded := f.discarded + |f.scratch| + 1)
  }

  /** Lines 185-195: a sequence 0 starts a new, zeroed frame, and a non-empty
      partial frame it replaces counts as invalid. */
  function StartOnZero(k: Params, f: Framer, sq: nat): (r: Framer)
    requires k.Ok() && FrameInv(k, f)
    ensures FrameInv(k, r)
    ensures sq == 0 ==> r.started && r.count == 0
  {
    if sq == 0 then
      f.(invalidFrames := if f.started && f.count > 0 then f.invalidFrames + 1 else f.invalidFrames,
         started := true, count := 0, frame := ZeroFrame(k))
    else f
  }

  /** Lines 204-233, when the last packet of a frame has been stored: the
      frame is checked, counted and handed on, and assembly resets. */
  function Complete(k: Params, f: Framer): (r: (Framer, Option<seq<seq<byte>>>))
    requires k.Ok() && f.count == k.framePackets && FrameOk(k, f.frame)
    requires forall i :: 0 <= i < |f.frame| ==> |f.frame[i]| == k.packetSize
    ensures FrameInv(k, r.0)
    ensures r.1.Some? ==> FrameOk(k, r.1.value)
  {
    if FrameOk(k, f.frame) then
      (f.(validFrames := f.validFrames + 1, started := false, count := 0), Some(f.frame))
    else
      // The frame-check failure branch (lines 226-229): every slot holds a
      // valid packet whose sequence is its index.
      assert false; (f, None)
  }

  /** Lines 197-249, after `StartOnZero`: the expected packet is stored in its
      slot; any other sequence below N discards the frame in progress. */
  function Place(k: Params, f: Framer, p: seq<byte>): (r: (Framer, Option<seq<seq<byte>>>))
    requires k.Ok() && ValidateLidarPacket(k, p) && FrameInv(k, f)
    requires p[2] == 0 ==> f.started && f.count == 0
    ensures FrameInv(k, r.0)
    ensures r.1.Some? ==> FrameOk(k, r.1.value)
  {
    var sq: nat := p[2];
    if f.started && sq < k.framePackets then
      if sq == f.count then
        StorePacket(f.frame, sq, p, f.frame[sq := p]);
        var f2 := f.(frame := f.frame[sq := p], count := f.count + 1);
        if f2.count == k.framePackets then Complete(k, f2) else (f2, None)
      else if sq == 0 then
        // The restart-from-zero branch (lines 236-242): a 0 has just reset
        // the count to 0, so it always matched the count above.
        assert false; (f, None)
      else
        (f.(started := false, count := 0, invalidFrames := f.invalidFrames + 1), None)
    else
      (f, None)
  }

  /** A valid packet, in frame assembly. Returns the frame that was completed
      and passed `validate_frame`, if any. Assembly keeps `FrameInv`, and a
      completed frame always passes `validate_frame`. */
  function Assemble(k: Params, f: Framer, p: seq<byte>): (r: (Framer, Option<seq<seq<byte>>>))
    requires k.Ok() && ValidateLidarPacket(k, p) && FrameInv(k, f)
    ensures FrameInv(k, r.0)
    ensures r.1.Some? ==> FrameOk(k, r.1.value)
  {
    Place(k, StartOnZero(k, f, p[2]), p)
  }

  /** A complete packet of P bytes: count it, validate it, assemble it. */
  function HandlePacket(k: Params, f: Framer, p: seq<byte>): (r: (Framer, Option<seq<seq<byte>>>))
    requires k.Ok() && |p| == k.packetSize && FrameInv(k, f)
    ensures FrameInv(k, r.0)
    ensures r.1.Some? ==> FrameOk(k, r.1.value)
  {
    var f1 := f.(totalPackets := f.totalPackets + 1);
    if ValidateLidarPacket(k, p) then Assemble(k, f1.(validPackets := f1.validPackets + 1), p)
    else (f1.(invalidPackets := f1.invalidPackets + 1), None)
  }

  /** Lines 162-167 and 257-259: once the header is found, bytes are
      collected until P are in; the packet is then handled and the search
      starts again, whether or not the packet was valid. */
  function Collect(k: Params, f: Framer, b: byte): (r: (Framer, Option<seq<seq<byte>>>))
    requires FramerInv(k, f) && f.headerFound
    ensures FramerInv(k, r.0)
    ensures r.1.Some? ==> FrameOk(k, r.1.value)
  {
    var s := f.scratch + [b];
    if |s| >= k.packetSize then
      var h := HandlePacket(k, f.(scratch := s), s);
      (h.0.(scratch := [], headerFound := false), h.1)
    else
      (f.(scratch := s), None)
  }

  /** One byte through the loop body. The frame returned, if any, is complete
      and valid. */
  function ByteStep(k: Params, f: Framer, b: byte): (r: (Framer, Option<seq<seq<byte>>>))
    requires FramerInv(k, f)
    ensures FramerInv(k, r.0)
    ensures r.1.Some? ==> FrameOk(k, r.1.value)
  {
    if !f.headerFound then (SearchStep(f, b), None) else Collect(k, f, b)
  }

  /** Storing packet `n` after packets 0 .. n - 1 keeps the frame's prefix in
      order; `g` is the frame after the store. */
  lemma StorePacket(frame: seq<seq<byte>>, n: nat, p: seq<byte>, g: seq<seq<byte>>)
    requires n < |frame| && PacketOk(p, n) && g == frame[n := p]
    requires forall i :: 0 <= i < n ==> PacketOk(frame[i], i)
    ensures forall i :: 0 <= i <= n ==> PacketOk(g[i], i)
    ensures n + 1 == |frame| ==> forall i :: 0 <= i < |g| ==> PacketOk(g[i], i)
  {
    forall i | 0 <= i <= n
      ensures PacketOk(g[i], i)
    {
      if i < n {
        assert g[i] == frame[i];
      }
    }
  }

  // ---------------------------------------------------------------------
  // Frame assembly, case by case
  // ---------------------------------------------------------------------

  /** A valid packet with sequence 0 always starts a new frame that holds it in
      slot 0, and counts a non-empty partial frame it replaces as invalid. */
  lemma SequenceZeroStartsFrame(k: Params, f: Framer, p: seq<byte>)
    requires FramerInv(k, f) && ValidateLidarPacket(k, p) && p[2] == 0
    ensures var r := Assemble(k, f, p);
      && r.0.invalidFrames == f.invalidFrames + (if f.started && f.count > 0 then 1 else 0)
      && (k.framePackets > 1 ==> r.0.started && r.0.count == 1 && r.0.frame[0] == p && r.1 == None)
      && (k.framePackets == 1 ==> !r.0.started && r.0.count == 0 && r.1 == Some([p]))
  {
    if k.framePackets == 1 {
      var fr := ZeroFrame(k)[0 := p];
      assert fr == [p];
      assert FrameOk(k, fr);
    }
  }

  /** A valid packet with a non-zero sequence other than the one expected
      discards the frame in progress and counts it as invalid; with no frame
      started the packet is ignored. */
  lemma OutOfOrderPacketDiscardsFrame(k: Params, f: Framer, p: seq<byte>)
    requires FramerInv(k, f) && ValidateLidarPacket(k, p) && p[2] != 0
    ensures var r := Assemble(k, f, p);
      && (f.started && p[2] < k.framePackets && p[2] != f.count ==>
            !r.0.started && r.0.count == 0 && r.0.invalidFrames == f.invalidFrames + 1 && r.1 == None)
      && (!f.started ==> r == (f, None))
  {
  }

  /** The expected packet is stored in its slot; the frame is emitted when it
      is the last one, and the assembly state then resets. */
  lemma InOrderPacketExtendsFrame(k: Params, f: Framer, p: seq<byte>)
    requires FramerInv(k, f) && ValidateLidarPacket(k, p) && f.started && p[2] == f.count && p[2] != 0
    ensures var r := Assemble(k, f, p);
      && (f.count + 1 < k.framePackets ==>
            r.1 == None && r.0.count == f.count + 1 && r.0.frame == f.frame[f.count := p])
      && (f.count + 1 == k.framePackets ==>
            r.1 == Some(f.frame[f.count := p]) && r.0.validFrames == f.validFrames + 1
            && !r.0.started && r.0.count == 0 && r.0.invalidFrames == f.invalidFrames)
  {
    StorePacket(f.frame, f.count, p, f.frame[f.count := p]);
  }

  /** Once the header is found, the framer collects bytes up to exactly P and
      then returns to header search whether or not the packet was valid. */
  lemma CollectsExactlyOnePacket(k: Params, f: Framer, b: byte)
    requires FramerInv(k, f) && f.headerFound
    ensures var r := ByteStep(k, f, b);
      && (|f.scratch| + 1 < k.packetSize ==>
            r.0.scratch == f.scratch + [b] && r.0.headerFound && r.0.totalPackets == f.totalPackets && r.1 == None)
      && (|f.scratch| + 1 == k.packetSize ==>
            r.0.scratch == [] && !r.0.headerFound && r.0.totalPackets == f.totalPackets + 1
            && r.0.validPackets + r.0.invalidPackets == f.validPackets + f.invalidPackets + 1)
  {
  }

  /** A byte that breaks the header discards the scratch and itself, except
      that a 0x0A is kept as a new header start; the header is complete
      exactly when `0A 00` has been seen. */
  lemma HeaderSearchResynchronises(k: Params, f: Framer, b: byte)
    requires FramerInv(k, f) && !f.headerFound
    ensures var r := ByteStep(k, f, b);
      && r.1 == None
      && (r.0.headerFound <==> f.scratch == [HEADER_0] && b == HEADER_1)
      && (!r.0.headerFound ==>
            r.0.scratch == (if b == HEADER_0 then [b] else [])
            && r.0.discarded == f.discarded + (if |f.scratch| == 0 && b == HEADER_0 then 0 else |f.scratch| + 1))
  {
  }

  /** `s` is a suffix of `t`. */
  ghost predicate SuffixOf(s: seq<byte>, t: seq<byte>)
  {
    |s| <= |t| && s == t[|t| - |s|..]
  }

  /** The scratch buffer always holds the most recent input bytes. */
  lemma ByteStepScratchIsRecent(k: Params, f: Framer, b: byte)
    requires FramerInv(k, f)
    ensures SuffixOf(ByteStep(k, f, b).0.scratch, f.scratch + [b])
  {
    var s := ByteStep(k, f, b).0.scratch;
    assert s == [] || s == [b] || s == f.scratch + [b];
  }

  // ---------------------------------------------------------------------
  // The frame ring and the sender
  // ---------------------------------------------------------------------

  /** One entry of `g_frame_buffer` (`lidar_frame_t`). */
  datatype Frame = Frame(packets: seq<seq<byte>>, valid: bool, timestamp: u32)

  /** The ring globals: `g_frame_buffer`, `g_current_frame_index`,
      `g_buffered_frames`, plus `total_frames_sent` and how many `send()` calls
      have been made so far (the position in the `send()` oracle). */
  datatype Ring = Ring(slots: seq<Frame>, index: nat, buffered: nat, framesSent: nat, sendCalls: nat)

  function EmptySlot(k: Params): Frame
  {
    Frame(ZeroFrame(k), false, 0)
  }

  /** `init_data_processing`. */
  function EmptyRing(k: Params): Ring
  {
    Ring(seq(k.bufferCount, _ => EmptySlot(k)), 0, 0, 0, 0)
  }

  /** The ring as the code keeps it: C slots, the write index inside the
      ring, and every slot marked valid holding a frame that passed
      `validate_frame`. */
  ghost predicate RingShape(k: Params, r: Ring)
  {
    && k.Ok()
    && |r.slots| == k.bufferCount
    && r.index < k.bufferCount
    && (forall i :: 0 <= i < |r.slots| && r.slots[i].valid ==> FrameOk(k, r.slots[i].packets))
  }

  /** The ring's shape, and no more frames buffered than it holds. The code as
      written does not keep the bound (`AsWrittenPush`); the corrected push
      `PushSpec` does. */
  ghost predicate RingInv(k: Params, r: Ring)
  {
    RingShape(k, r) && r.buffered <= k.bufferCount
  }

  lemma EmptyRingInv(k: Params)
    requires k.Ok()
    ensures RingInv(k, EmptyRing(k))
  {
  }

  /** The inner write loop of `send_buffered_frames` for one frame: `send()`
      results are taken from the oracle `send` from position `calls` on; a
      result <= 0 abandons the frame. Returns the bytes sent and the next
      oracle position. */
  function SendOne(send: nat -> int, calls: nat, sent: nat, size: nat): (nat, nat)
    decreases size - sent
  {
    if sent >= size then (sent, calls)
    else if send(calls) <= 0 then (sent, calls + 1)
    else SendOne(send, calls + 1, sent + send(calls), size)
  }

  /** The sum of the oracle's results at positions `a` .. `b - 1`. */
  function Sum(send: nat -> int, a: nat, b: nat): int
    decreases b - a
  {
    if a >= b then 0 else send(a) + Sum(send, a + 1, b)
  }

  ghost predicate AllPositive(send: nat -> int, a: nat, b: nat)
  {
    forall c :: a <= c < b ==> send(c) > 0
  }

  /** The write loop ends either after writes that were all positive and
      reached the size, or on the first write <= 0, short of the size. */
  lemma {:induction false} SendOneOutcome(send: nat -> int, calls: nat, sent: nat, size: nat)
    requires sent < size
    ensures var r := SendOne(send, calls, sent, size);
      || (AllPositive(send, calls, r.1) && r.0 == sent + Sum(send, calls, r.1) && r.0 >= size)
      || (r.1 > calls && AllPositive(send, calls, r.1 - 1) && send(r.1 - 1) <= 0
          && r.0 == sent + Sum(send, calls, r.1 - 1) && r.0 < size)
    decreases size - sent
  {
    if send(calls) > 0 && sent + send(calls) < size {
      var r := SendOne(send, calls + 1, sent + send(calls), size);
      SendOneOutcome(send, calls + 1, sent + send(calls), size);
      if AllPositive(send, calls + 1, r.1) && r.0 == sent + send(calls) + Sum(send, calls + 1, r.1) && r.0 >= size {
        assert AllPositive(send, calls, r.1);
      } else {
        assert AllPositive(send, calls, r.1 - 1);
      }
    }
  }

  /** A frame counts as sent exactly when its writes were all positive and
      sum to the frame size. */
  lemma FrameSentIff(send: nat -> int, calls: nat, size: nat)
    requires size > 0
    ensures var r := SendOne(send, calls, 0, size);
      r.0 == size <==> AllPositive(send, calls, r.1) && Sum(send, calls, r.1) == size
  {
    var r := SendOne(send, calls, 0, size);
    SendOneOutcome(send, calls, 0, size);
  }

  /** The outer loop of `send_buffered_frames` over slots `i` .. `n - 1`:
      slots not marked valid are skipped. Returns how many frames were sent
      completely and the next oracle position. */
  function SendFrames(k: Params, slots: seq<Frame>, i: nat, n: nat, send: nat -> int, calls: nat): (nat, nat)
    requires i <= n <= |slots|
    decreases n - i
  {
    if i == n then (0, calls)
    else
      var one := if slots[i].valid then SendOne(send, calls, 0, k.FrameSize()) else (0, calls);
      var rest := SendFrames(k, slots, i + 1, n, send, one.1);
      (rest.0 + (if slots[i].valid && one.0 == k.FrameSize() then 1 else 0), rest.1)
  }

  /** The number of slots among `i` .. `n - 1` marked valid. */
  function ValidCount(slots: seq<Frame>, i: nat, n: nat): nat
    requires i <= n <= |slots|
    decreases n - i
  {
    if i == n then 0 else (if slots[i].valid then 1 else 0) + ValidCount(slots, i + 1, n)
  }

  /** At most the valid frames are sent; when every `send()` writes a whole
      frame, all of them are. */
  lemma {:induction false} SendFramesBounds(k: Params, slots: seq<Frame>, i: nat, n: nat, send: nat -> int, calls: nat)
    requires k.Ok() && i <= n <= |slots|
    ensures SendFrames(k, slots, i, n, send, calls).0 <= ValidCount(slots, i, n) <= n - i
    ensures (forall c :: send(c) == k.FrameSize()) ==> SendFrames(k, slots, i, n, send, calls).0 == ValidCount(slots, i, n)
    decreases n - i
  {
    if i < n {
      var one := if slots[i].valid then SendOne(send, calls, 0, k.FrameSize()) else (0, calls);
      SendFramesBounds(k, slots, i + 1, n, send, one.1);
      if (forall c :: send(c) == k.FrameSize()) && slots[i].valid {
        assert one == (k.FrameSize(), calls + 1);
      }
    }
  }

  /** `send_buffered_frames`: with no socket nothing changes; otherwise the
      first `buffered` slots are sent and the count is reset to 0. */
  function FlushSpec(k: Params, r: Ring, sock: int, send: nat -> int): (r': Ring)
    requires k.Ok() && r.buffered <= |r.slots|
    ensures sock < 0 ==> r' == r
    ensures sock >= 0 ==> r'.buffered == 0 && r'.slots == r.slots && r'.index == r.index
    ensures r.framesSent <= r'.framesSent <= r.framesSent + r.buffered
  {
    if sock < 0 then r
    else
      var sent := SendFrames(k, r.slots, 0, r.buffered, send, r.sendCalls);
      SendFramesBounds(k, r.slots, 0, r.buffered, send, r.sendCalls);
      r.(buffered := 0, framesSent := r.framesSent + sent.0, sendCalls := sent.1)
  }

  /** Lines 212-225, CORRECTED: the completed frame is stored at the write
      index, the index advances modulo C, and the ring is sent once C frames
      are buffered. Unlike line 215, the count saturates at C, so a ring left
      full while no socket is open never counts more frames than it holds
      (`AsWrittenPush` is the code as written). */
  function PushSpec(k: Params, r: Ring, frame: seq<seq<byte>>, now: u32, sock: int, send: nat -> int): (r': Ring)
    requires RingInv(k, r) && FrameOk(k, frame)
    ensures RingInv(k, r')
    ensures r'.slots == r.slots[r.index := Frame(frame, true, now)]
    ensures r'.index == (r.index + 1) % k.bufferCount
  {
    var r1 := r.(slots := r.slots[r.index := Frame(frame, true, now)],
                 index := (r.index + 1) % k.bufferCount,
                 buffered := if r.buffered < k.bufferCount then r.buffered + 1 else r.buffered);
    if r1.buffered >= k.bufferCount then FlushSpec(k, r1, sock, send) else r1
  }

  /** Lines 212-225 AS WRITTEN: the count rises unconditionally (line 215)
      and `send_buffered_frames` is called once C or more frames are buffered
      (lines 219-222). With no socket it returns at lines 50-53 and the count
      stays; with one, its loop reads `g_frame_buffer[i]` for every `i` below
      the count (line 61), which is past the ring once more than C frames are
      buffered. That read is undefined behaviour, and is `None` here. */
  function AsWrittenPush(k: Params, r: Ring, frame: seq<seq<byte>>, now: u32, sock: int, send: nat -> int): (r': Option<Ring>)
    requires RingShape(k, r) && FrameOk(k, frame)
    ensures r'.None? <==> sock >= 0 && r.buffered >= k.bufferCount
    ensures r'.Some? ==>
      && RingShape(k, r'.value)
      && r'.value.slots == r.slots[r.index := Frame(frame, true, now)]
      && r'.value.index == (r.index + 1) % k.bufferCount
      && (sock < 0 ==> r'.value.buffered == r.buffered + 1 && r'.value.framesSent == r.framesSent)
  {
    var r1 := r.(slots := r.slots[r.index := Frame(frame, true, now)],
                 index := (r.index + 1) % k.bufferCount,
                 buffered := r.buffered + 1);
    if r1.buffered < k.bufferCount || sock < 0 then Some(r1)
    else if r1.buffered > k.bufferCount then None
    else Some(FlushSpec(k, r1, sock, send))
  }

  /** The correction changes nothing until the ring is full: below C buffered
      frames both pushes agree. At C they part: as written, a socket makes the
      flush read past the ring and no socket takes the count to C + 1, while
      the corrected push stays within the ring. */
  lemma AsWrittenDiffersOnlyWhenFull(k: Params, r: Ring, frame: seq<seq<byte>>, now: u32, sock: int, send: nat -> int)
    requires RingInv(k, r) && FrameOk(k, frame)
    ensures r.buffered < k.bufferCount ==> AsWrittenPush(k, r, frame, now, sock, send) == Some(PushSpec(k, r, frame, now, sock, send))
    ensures r.buffered == k.bufferCount ==>
      var w := AsWrittenPush(k, r, frame, now, sock, send);
      (sock >= 0 ==> w.None?) && (sock < 0 ==> w.Some? && w.value.buffered == k.bufferCount + 1)
        && PushSpec(k, r, frame, now, sock, send).buffered <= k.bufferCount
  {
  }

  /** n pushes of the same frame as written, stopping at an overrun. */
  function AsWrittenPushRepeatedly(k: Params, r: Ring, frame: seq<seq<byte>>, n: nat, now: u32, sock: int, send: nat -> int): (r': Option<Ring>)
    requires RingShape(k, r) && FrameOk(k, frame)
    ensures r'.Some? ==> RingShape(k, r'.value)
  {
    if n == 0 then Some(r)
    else
      var m := AsWrittenPushRepeatedly(k, r, frame, n - 1, now, sock, send);
      if m.None? then None else AsWrittenPush(k, m.value, frame, now, sock, send)
  }

  /** As written, with no socket, `n` completed frames raise the count by `n`
      and send nothing. Once it reaches C, the first frame completed with a
      socket open makes the flush loop read `g_frame_buffer[C]`, past the
      ring: from an empty ring, C offline frames are enough. */
  lemma {:induction false} AsWrittenOfflineOverrun(k: Params, r: Ring, frame: seq<seq<byte>>, n: nat, now: u32, sock: int, send: nat -> int)
    requires RingShape(k, r) && FrameOk(k, frame)
    ensures var m := AsWrittenPushRepeatedly(k, r, frame, n, now, -1, send);
      && m.Some? && m.value.buffered == r.buffered + n && m.value.framesSent == r.framesSent
      && (sock >= 0 && r.buffered + n >= k.bufferCount ==> AsWrittenPush(k, m.value, frame, now, sock, send).None?)
  {
    if n > 0 {
      AsWrittenOfflineOverrun(k, r, frame, n - 1, now, sock, send);
    }
  }

  /** n pushes of the same frame. */
  function PushRepeatedly(k: Params, r: Ring, frame: seq<seq<byte>>, n: nat, now: u32, sock: int, send: nat -> int): (r': Ring)
    requires RingInv(k, r) && FrameOk(k, frame)
    ensures RingInv(k, r')
  {
    if n == 0 then r else PushSpec(k, PushRepeatedly(k, r, frame, n - 1, now, sock, send), frame, now, sock, send)
  }

  /** With the count saturated, no socket leaves it at min(buffered + n, C),
      so a flush never reads past the ring. */
  lemma {:induction false} OfflinePushesSaturate(k: Params, r: Ring, frame: seq<seq<byte>>, n: nat, now: u32, send: nat -> int)
    requires RingInv(k, r) && FrameOk(k, frame)
    ensures PushRepeatedly(k, r, frame, n, now, -1, send).buffered == Min(r.buffered + n, k.bufferCount)
    ensures PushRepeatedly(k, r, frame, n, now, -1, send).framesSent == r.framesSent
  {
    if n > 0 {
      OfflinePushesSaturate(k, r, frame, n - 1, now, send);
    }
  }

  // ---------------------------------------------------------------------
  // The byte loop over a whole read
  // ---------------------------------------------------------------------

  /** A completed frame, if any, buffered into the ring. */
  function Deliver(k: Params, r: Ring, out: Option<seq<seq<byte>>>, now: u32, sock: int, send: nat -> int): (r': Ring)
    requires RingInv(k, r) && (out.Some? ==> FrameOk(k, out.value))
    ensures RingInv(k, r')
  {
    if out.Some? then PushSpec(k, r, out.value, now, sock, send) else r
  }

  /** One byte, with a completed frame buffered into the ring. */
  function TaskStep(k: Params, f: Framer, r: Ring, b: byte, now: u32, sock: int, send: nat -> int): (res: (Framer, Ring))
    requires FramerInv(k, f) && RingInv(k, r)
    ensures FramerInv(k, res.0) && RingInv(k, res.1)
  {
    var (g, out) := ByteStep(k, f, b);
    (g, Deliver(k, r, out, now, sock, send))
  }

  /** The bytes of `data` in order, one `TaskStep` each. */
  function Feed(k: Params, f: Framer, r: Ring, data: seq<byte>, now: u32, sock: int, send: nat -> int): (res: (Framer, Ring))
    requires FramerInv(k, f) && RingInv(k, r)
    ensures FramerInv(k, res.0) && RingInv(k, res.1)
    decreases |data|
  {
    if data == [] then (f, r)
    else
      var m := Feed(k, f, r, data[..|data| - 1], now, sock, send);
      TaskStep(k, m.0, m.1, data[|data| - 1], now, sock, send)
  }

  /** Feeding one more byte is one more `TaskStep`. */
  lemma FeedSnoc(k: Params, f: Framer, r: Ring, data: seq<byte>, i: nat, now: u32, sock: int, send: nat -> int)
    requires FramerInv(k, f) && RingInv(k, r) && i < |data|
    ensures var m := Feed(k, f, r, data[..i], now, sock, send);
      Feed(k, f, r, data[..i + 1], now, sock, send) == TaskStep(k, m.0, m.1, data[i], now, sock, send)
  {
    assert data[..i + 1][..i] == data[..i];
  }

  /** The state persists between reads: two reads feed the framer exactly as
      one read of their concatenation does. */
  lemma {:induction false} FeedAppend(k: Params, f: Framer, r: Ring, a: seq<byte>, b: seq<byte>, now: u32, sock: int, send: nat -> int)
    requires FramerInv(k, f) && RingInv(k, r)
    ensures var m := Feed(k, f, r, a, now, sock, send);
      Feed(k, f, r, a + b, now, sock, send) == Feed(k, m.0, m.1, b, now, sock, send)
    decreases |b|
  {
    if b == [] {
      assert a + b == a;
    } else {
      var b' := b[..|b| - 1];
      assert (a + b)[..|a + b| - 1] == a + b';
      assert (a + b)[|a + b| - 1] == b[|b| - 1];
      FeedAppend(k, f, r, a, b', now, sock, send);
    }
  }

  /** A suffix of a suffix, extended by the same byte. */
  lemma SuffixOfSuffix(x: seq<byte>, d: seq<byte>, b: byte, data: seq<byte>, m: seq<byte>, s: seq<byte>)
    requires data == d + [b]
    requires SuffixOf(m, x + d) && SuffixOf(s, m + [b])
    ensures SuffixOf(s, x + data)
  {
    var y := x + data;
    assert x + data == (x + d) + [b];
    assert m + [b] == y[|x + d| - |m|..];
  }

  /** The last byte of a read extends the scratch of the bytes before it. */
  lemma FeedLastScratch(k: Params, f: Framer, r: Ring, data: seq<byte>, now: u32, sock: int, send: nat -> int)
    requires FramerInv(k, f) && RingInv(k, r) && data != []
    ensures SuffixOf(Feed(k, f, r, data, now, sock, send).0.scratch,
                     Feed(k, f, r, data[..|data| - 1], now, sock, send).0.scratch + [data[|data| - 1]])
  {
    var m := Feed(k, f, r, data[..|data| - 1], now, sock, send);
    ByteStepScratchIsRecent(k, m.0, data[|data| - 1]);
  }

  /** After any input the scratch buffer is the tail of the previous scratch
      followed by the input, so every packet the framer collects is a
      contiguous run of received bytes. */
  lemma {:induction false} FeedScratchIsRecent(k: Params, f: Framer, r: Ring, data: seq<byte>, now: u32, sock: int, send: nat -> int)
    requires FramerInv(k, f) && RingInv(k, r)
    ensures SuffixOf(Feed(k, f, r, data, now, sock, send).0.scratch, f.scratch + data)
    decreases |data|
  {
    if data == [] {
      assert f.scratch + data == f.scratch;
    } else {
      var d' := data[..|data| - 1];
      var b := data[|data| - 1];
      var sc := Feed(k, f, r, data, now, sock, send).0.scratch;
      var m := Feed(k, f, r, d', now, sock, send).0.scratch;
      assert SuffixOf(m, f.scratch + d') by {
        FeedScratchIsRecent(k, f, r, d', now, sock, send);
      }
      assert SuffixOf(sc, m + [b]) by {
        FeedLastScratch(k, f, r, data, now, sock, send);
      }
      assert data == d' + [b];
      SuffixOfSuffix(f.scratch, d', b, data, m, sc);
    }
  }

  // ---------------------------------------------------------------------
  // The ring globals, in place
  // ---------------------------------------------------------------------

  /** `g_frame_buffer`, `g_current_frame_index`, `g_buffered_frames` and
      `send_buffered_frames`. `sendCalls` counts the `send()` calls made so
      far; result number c is `send(c)`. */
  class FrameBuffer {
    const k: Params
    const slots: array<Frame>
    var currentIndex: nat
    var bufferedFrames: nat
    var totalFramesSent: nat
    var sendCalls: nat

    ghost function State(): Ring
      reads this, slots
    {
      Ring(slots[..], currentIndex, bufferedFrames, totalFramesSent, sendCalls)
    }

    ghost predicate Valid()
      reads this, slots
    {
      RingInv(k, State())
    }

    /** `init_data_processing`: all slots zero (not valid), nothing buffered. */
    constructor(k: Params)
      requires k.Ok()
      ensures Valid() && State() == EmptyRing(k) && this.k == k && fresh(slots)
    {
      this.k := k;
      slots := new Frame[k.bufferCount](_ => EmptySlot(k));
      currentIndex, bufferedFrames, totalFramesSent, sendCalls := 0, 0, 0, 0;
    }

    /** The write loop for one frame: stops when the frame is out or on the
        first result <= 0. */
    method SendFrame(send: nat -> int) returns (sent: nat)
      modifies this`sendCalls
      ensures (sent, sendCalls) == SendOne(send, old(sendCalls), 0, k.FrameSize())
    {
      sent := 0;
      while sent < k.FrameSize()
        invariant SendOne(send, sendCalls, sent, k.FrameSize()) == SendOne(send, old(sendCalls), 0, k.FrameSize())
        decreases k.FrameSize() - sent
      {
        var ret := send(sendCalls);
        sendCalls := sendCalls + 1;
        if ret <= 0 {
          break;
        }
        sent := sent + ret;
      }
    }

    /** `send_buffered_frames`, with the socket `sock` read by the caller. */
    method SendBufferedFrames(sock: int, send: nat -> int)
      requires Valid()
      modifies this`bufferedFrames, this`totalFramesSent, this`sendCalls
      ensures Valid()
      ensures State() == FlushSpec(k, old(State()), sock, send)
    {
      if sock < 0 {
        return;
      }
      ghost var total := SendFrames(k, slots[..], 0, bufferedFrames, send, sendCalls);
      var i := 0;
      while i < bufferedFrames
        invariant 0 <= i <= bufferedFrames <= slots.Length
        invariant var rest := SendFrames(k, slots[..], i, bufferedFrames, send, sendCalls);
          totalFramesSent + rest.0 == old(totalFramesSent) + total.0 && rest.1 == total.1
      {
        if slots[i].valid {
          var sent := SendFrame(send);
          if sent == k.FrameSize() {
            totalFramesSent := totalFramesSent + 1;
          }
        }
        i := i + 1;
      }
      bufferedFrames := 0;
    }

    /** Lines 212-225, with the correction `PushSpec` states: the completed
        frame goes to the write index, the index advances modulo C, the count
        saturates at C (line 215 increments it without bound), and the ring
        is sent when it holds C frames. */
    method Push(frame: seq<seq<byte>>, now: u32, sock: int, send: nat -> int)
      requires Valid() && FrameOk(k, frame)
      modifies this, slots
      ensures Valid()
      ensures State() == PushSpec(k, old(State()), frame, now, sock, send)
    {
      slots[currentIndex] := Frame(frame, true, now);
      currentIndex := (currentIndex + 1) % k.bufferCount;
      if bufferedFrames < k.bufferCount {
        bufferedFrames := bufferedFrames + 1;
      }
      if bufferedFrames >= k.bufferCount {
        SendBufferedFrames(sock, send);
      }
    }
  }

  // ---------------------------------------------------------------------
  // The UART task, in place
  // ---------------------------------------------------------------------

  /** The static variables of `uart_to_sock_task` and the body of its read
      loop. `frames` is the ring the UART task buffers completed frames into. */
  class UartToSockTask {
    const k: Params
    const packetBuf: array<byte>
    var packetPos: nat
    var headerFound: bool
    var currentFrame: seq<seq<byte>>
    var framePacketCount: nat
    var frameStarted: bool
    var totalBytesReceived: nat
    var totalPacketsProcessed: nat
    var validPackets: nat
    var invalidPackets: nat
    var validFrames: nat
    var invalidFrames: nat
    var discardedBytes: nat
    const frames: FrameBuffer

    ghost function State(): Framer
      reads this, packetBuf
      requires packetPos <= packetBuf.Length
    {
      Framer(packetBuf[..packetPos], headerFound, currentFrame, framePacketCount, frameStarted,
             totalBytesReceived, totalPacketsProcessed, validPackets, invalidPackets,
             validFrames, invalidFrames, discardedBytes)
    }

    /** Everything but the scratch invariant, which a full packet breaks for
        the moment it takes to handle it. */
    ghost predicate Linked()
      reads this, packetBuf, frames, frames.slots
    {
      && k.Ok()
      && packetBuf.Length == k.packetSize
      && packetPos <= packetBuf.Length
      && FrameInv(k, State())
      && frames.k == k
      && frames.Valid()
    }

    ghost predicate Valid()
      reads this, packetBuf, frames, frames.slots
    {
      Linked() && FramerInv(k, State())
    }

    constructor(frames: FrameBuffer)
      requires frames.Valid()
      ensures Valid() && State() == InitialFramer(frames.k)
      ensures this.frames == frames && k == frames.k && fresh(packetBuf)
    {
      k := frames.k;
      this.frames := frames;
      packetBuf := new byte[frames.k.packetSize](_ => 0);
      packetPos, headerFound := 0, false;
      currentFrame, framePacketCount, frameStarted := ZeroFrame(frames.k), 0, false;
      totalBytesReceived, totalPacketsProcessed, validPackets, invalidPackets := 0, 0, 0, 0;
      validFrames, invalidFrames, discardedBytes := 0, 0, 0;
    }

    /** Lines 143-161. */
    method SearchHeader(b: byte)
      requires Valid() && !headerFound
      modifies this`packetPos, this`headerFound, this`discardedBytes, packetBuf
      ensures Valid()
      ensures State() == SearchStep(old(State()), b)
    {
      ghost var f0 := State();
      if packetPos == 0 && b == HEADER_0 {
        packetBuf[0] := b;
        packetPos := 1;
        assert State() == f0.(scratch := [b]);
      } else if packetPos == 1 && b == HEADER_1 {
        packetBuf[1] := b;
        packetPos := 2;
        headerFound := true;
        assert packetBuf[..packetPos] == f0.scratch + [b];
      } else {
        if packetPos > 0 {
          discardedBytes := discardedBytes + packetPos;
          packetPos := 0;
        }
        discardedBytes := discardedBytes + 1;
        if b == HEADER_0 {
          packetBuf[0] := b;
          packetPos := 1;
          assert packetBuf[..packetPos] == [b];
        }
      }
    }

    /** Lines 185-195. */
    method BeginFrameOnZero(sq: nat)
      requires Linked()
      modifies this`currentFrame, this`framePacketCount, this`frameStarted, this`invalidFrames
      ensures Linked()
      ensures State() == StartOnZero(k, old(State()), sq)
    {
      if sq == 0 {
        if frameStarted && framePacketCount > 0 {
          invalidFrames := invalidFrames + 1;
        }
        frameStarted := true;
        framePacketCount := 0;
        currentFrame := ZeroFrame(k);
      }
    }

    /** Lines 204-233. */
    method FinishFrame(now: u32, sock: int, send: nat -> int)
      requires k.Ok() && packetBuf.Length == k.packetSize && packetPos <= packetBuf.Length
      requires frames.k == k && frames.Valid()
      requires framePacketCount == k.framePackets && FrameOk(k, currentFrame)
      requires forall i :: 0 <= i < |currentFrame| ==> |currentFrame[i]| == k.packetSize
      modifies this`framePacketCount, this`frameStarted, this`validFrames, frames, frames.slots
      ensures Linked()
      ensures var r := Complete(k, old(State()));
        && State() == r.0
        && frames.State() == Deliver(k, old(frames.State()), r.1, now, sock, send)
    {
      var valid := ValidateFrame(k, currentFrame);
      if valid {
        validFrames := validFrames + 1;
        frames.Push(currentFrame, now, sock, send);
      } else {
        assert false;
      }
      frameStarted := false;
      framePacketCount := 0;
    }

    /** Lines 197-249. */
    method PlacePacket(p: seq<byte>, now: u32, sock: int, send: nat -> int)
      requires Linked() && ValidateLidarPacket(k, p)
      requires p[2] == 0 ==> frameStarted && framePacketCount == 0
      modifies this`currentFrame, this`framePacketCount, this`frameStarted, this`validFrames,
        this`invalidFrames, frames, frames.slots
      ensures Linked()
      ensures var r := Place(k, old(State()), p);
        && State() == r.0
        && frames.State() == Deliver(k, old(frames.State()), r.1, now, sock, send)
    {
      var sq: nat := p[2];
      if frameStarted && sq < k.framePackets {
        if sq == framePacketCount {
          StorePacket(currentFrame, sq, p, currentFrame[sq := p]);
          currentFrame := currentFrame[sq := p];
          framePacketCount := framePacketCount + 1;
          if framePacketCount == k.framePackets {
            FinishFrame(now, sock, send);
          }
        } else if sq == 0 {
          assert false;
        } else {
          frameStarted := false;
          framePacketCount := 0;
          invalidFrames := invalidFrames + 1;
        }
      }
    }

    /** Lines 185-249, for a packet that passed `validate_lidar_packet`. */
    method AssemblePacket(p: seq<byte>, now: u32, sock: int, send: nat -> int)
      requires Linked() && ValidateLidarPacket(k, p)
      modifies this`currentFrame, this`framePacketCount, this`frameStarted, this`validFrames,
        this`invalidFrames, frames, frames.slots
      ensures Linked()
      ensures var r := Assemble(k, old(State()), p);
        && State() == r.0
        && frames.State() == Deliver(k, old(frames.State()), r.1, now, sock, send)
    {
      BeginFrameOnZero(p[2]);
      PlacePacket(p, now, sock, send);
    }

    /** Lines 168-255: a full packet in `packet_buf` is counted, validated and
        assembled. */
    method HandleFullPacket(now: u32, sock: int, send: nat -> int)
      requires Linked() && packetPos == packetBuf.Length
      modifies this`totalPacketsProcessed, this`validPackets, this`invalidPackets,
        this`currentFrame, this`framePacketCount, this`frameStarted, this`validFrames,
        this`invalidFrames, frames, frames.slots
      ensures Linked()
      ensures var r := HandlePacket(k, old(State()), packetBuf[..]);
        && State() == r.0
        && frames.State() == Deliver(k, old(frames.State()), r.1, now, sock, send)
    {
      var p := packetBuf[..];
      ghost var f0 := State();
      ghost var f1 := f0.(totalPackets := f0.totalPackets + 1);
      totalPacketsProcessed := totalPacketsProcessed + 1;
      if ValidateLidarPacket(k, p) {
        validPackets := validPackets + 1;
        ghost var f2 := f1.(validPackets := f1.validPackets + 1);
        assert State() == f2;
        assert HandlePacket(k, f0, p) == Assemble(k, f2, p);
        AssemblePacket(p, now, sock, send);
      } else {
        invalidPackets := invalidPackets + 1;
        assert State() == f1.(invalidPackets := f1.invalidPackets + 1);
      }
    }

    /** Lines 162-163: the byte goes to the next free place of `packet_buf`. */
    method StoreByte(b: byte)
      requires Valid() && headerFound
      modifies this`packetPos, packetBuf
      ensures Linked() && packetPos == old(packetPos) + 1
      ensures State() == old(State()).(scratch := old(State()).scratch + [b])
    {
      ghost var s0 := packetBuf[..packetPos];
      packetBuf[packetPos] := b;
      packetPos := packetPos + 1;
      assert packetBuf[..packetPos] == s0 + [b];
    }

    /** Lines 165-167 and 257-259: a full `packet_buf` is handled and the
        header search starts again. */
    method ConsumePacket(now: u32, sock: int, send: nat -> int)
      requires Linked() && packetPos == packetBuf.Length
      modifies this`packetPos, this`headerFound, this`totalPacketsProcessed, this`validPackets,
        this`invalidPackets, this`currentFrame, this`framePacketCount, this`frameStarted, this`validFrames,
        this`invalidFrames, frames, frames.slots
      ensures Linked()
      ensures var h := HandlePacket(k, old(State()), old(State()).scratch);
        && State() == h.0.(scratch := [], headerFound := false)
        && frames.State() == Deliver(k, old(frames.State()), h.1, now, sock, send)
    {
      assert packetBuf[..] == State().scratch;
      HandleFullPacket(now, sock, send);
      packetPos := 0;
      headerFound := false;
    }

    /** Lines 162-167 and 257-259. */
    method CollectByte(b: byte, now: u32, sock: int, send: nat -> int)
      requires Valid() && headerFound
      modifies this`packetPos, this`headerFound, packetBuf, this`totalPacketsProcessed, this`validPackets,
        this`invalidPackets, this`currentFrame, this`framePacketCount, this`frameStarted, this`validFrames,
        this`invalidFrames, frames, frames.slots
      ensures Valid()
      ensures var c := Collect(k, old(State()), b);
        State() == c.0 && frames.State() == Deliver(k, old(frames.State()), c.1, now, sock, send)
    {
      ghost var f0 := State();
      StoreByte(b);
      ghost var f1 := State();
      if packetPos >= k.packetSize {
        ConsumePacket(now, sock, send);
        assert Collect(k, f0, b) == (State(), HandlePacket(k, f1, f1.scratch).1);
      } else {
        assert Collect(k, f0, b) == (f1, None);
      }
    }

    /** One byte of the loop at lines 139-262. */
    method ProcessByte(b: byte, now: u32, sock: int, send: nat -> int)
      requires Valid()
      modifies this, packetBuf, frames, frames.slots
      ensures Valid()
      ensures (State(), frames.State()) == TaskStep(k, old(State()), old(frames.State()), b, now, sock, send)
    {
      if !headerFound {
        SearchHeader(b);
      } else {
        CollectByte(b, now, sock, send);
      }
    }

    /** One pass of the UART task's `for (;;)` loop with `data` as the bytes
        `uart_read_bytes` returned. `now` is the tick count a completed frame
        is stamped with and `sock` the socket a flush finds. */
    method OnRead(data: seq<byte>, now: u32, sock: int, send: nat -> int)
      requires Valid()
      modifies this, packetBuf, frames, frames.slots
      ensures Valid()
      ensures (State(), frames.State())
        == Feed(k, old(State()).(totalBytes := old(State()).totalBytes + |data|), old(frames.State()), data, now, sock, send)
    {
      ghost var fs := old(State()).(totalBytes := old(State()).totalBytes + |data|);
      if |data| > 0 {
        totalBytesReceived := totalBytesReceived + |data|;
        ghost var f0 := State();
        assert f0 == fs;
        ghost var r0 := frames.State();
        var i := 0;
        while i < |data|
          invariant 0 <= i <= |data|
          invariant Valid()
          invariant (State(), frames.State()) == Feed(k, f0, r0, data[..i], now, sock, send)
        {
          FeedSnoc(k, f0, r0, data, i, now, sock, send);
          ProcessByte(data[i], now, sock, send);
          i := i + 1;
        }
        assert data[..i] == data;
      } else {
        assert fs == State();
      }
    }
  }
}
