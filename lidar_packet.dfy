/** The current firmware framer and batch cache (main/lidar_packet.c).

    Every serial read is handed to `AnalyzeData`, which joins the carried-over
    tail with the new bytes, scans every offset for a valid packet, and hands
    each packet it accepts to `ProcessValidPacket`. That tracks sequence
    continuity modulo 8, caches the packet in one of eight slots and, when all
    eight slots are filled, pushes the batch (slots 0..7 in order) into a
    bounded, non-blocking FIFO.

    The module has two layers: pure specification functions over a `State`
    value, with the lemmas about them, and the class `PacketPipeline`, whose
    fields are the file's static state and whose methods are proved equal to
    the specification functions. */
module LidarPacket {
  import opened Bytes

  const PACKET_SIZE: nat := 352     // LIDAR_PACKET_SIZE
  const BATCH_SIZE: nat := 8        // LIDAR_BATCH_SIZE
  const QUEUE_SIZE: nat := 100      // TCP_SEND_QUEUE_SIZE
  const BATCH_TIMEOUT_MS: nat := 100
  const UINT32_MAX: u32 := 0xFFFF_FFFF
  const FULL_MASK: bv32 := 0xFF

  /** FreeRTOS `pdMS_TO_TICKS(ms)` for a given `configTICK_RATE_HZ`. */
  function MsToTicks(ms: nat, tickRateHz: nat): nat
  {
    ms * tickRateHz / 1000
  }

  // ---------------------------------------------------------------------
  // Packet validation
  // ---------------------------------------------------------------------

  /** The sequence number carried by a packet: the low nibble of byte 2. */
  function Sequence(p: seq<byte>): (s: nat)
    requires |p| >= 3
    ensures s < 16
  {
    LowNibble(p[2])
  }

  /** `lidar_validate_packet`: header, reserved byte, then the sequence range. */
  function ValidatePacket(p: seq<byte>): (ok: bool)
    requires |p| >= 4
    ensures ok ==> p[0] == HEADER_0 && p[1] == HEADER_1 && p[3] == 0 && Sequence(p) < BATCH_SIZE
  {
    if p[0] != HEADER_0 || p[1] != HEADER_1 then false
    else if p[3] != 0 then false
    else Sequence(p) <= 7
  }

  /** Validation looks only at the low nibble of byte 2: any high nibble is accepted. */
  lemma ValidateIgnoresHighNibble(p: seq<byte>, hi: nat)
    requires |p| >= 4 && hi < 16
    ensures ValidatePacket(p[2 := hi * 16 + p[2] % 16]) == ValidatePacket(p)
    ensures ValidatePacket(p) <==> p[0] == 0x0A && p[1] == 0x00 && p[3] == 0 && p[2] % 16 <= 7
  {
    var q := p[2 := hi * 16 + p[2] % 16];
    assert (hi * 16 + p[2] % 16) % 16 == p[2] % 16;
    assert Sequence(q) == Sequence(p);
  }

  // ---------------------------------------------------------------------
  // The state of the file, as a value
  // ---------------------------------------------------------------------

  /** One entry of `packet_cache`. */
  datatype Slot = Slot(packet: seq<byte>, received: bool, timestamp: u32)

  /** `lidar_batch_item_t`: the eight packets in sequence order, when the batch
      was formed, and the mask it was formed under. */
  datatype BatchItem = BatchItem(data: seq<byte>, timestamp: u32, sequenceMask: byte)

  /** The sequence-tracking counters of `uart_stats`. */
  datatype Tracker = Tracker(
    packetsDetected: nat,
    packetsLost: nat,
    sequenceErrors: nat,
    lastSequence: nat,
    firstPacket: bool)

  /** The batch cache of `uart_stats` and the send queue it feeds. */
  datatype Batcher = Batcher(
    cache: seq<Slot>,
    mask: bv32,
    batchesSent: nat,
    incompleteBatches: nat,
    queueCreated: bool,
    queue: seq<BatchItem>)

  /** Everything `process_valid_packet` reads or writes. */
  datatype Core = Core(tracker: Tracker, batcher: Batcher)

  /** `uart_stats` (without the logging timestamp) and the send queue:
      the byte counter and carried-over tail of `lidar_analyze_data`, and the core. */
  datatype State = State(totalBytesReceived: nat, pending: seq<byte>, core: Core)

  /** Bit `i` of the received mask, `1 << i`. */
  function Bit(i: nat): (b: bv32)
    requires i < BATCH_SIZE
  {
    (1 as bv32) << i
  }

  /** Bits of the mask are independent: bit `i` of `1 << j` is set exactly when `i == j`. */
  lemma BitsDistinct(i: nat, j: nat)
    requires i < BATCH_SIZE && j < BATCH_SIZE
    ensures (Bit(i) & Bit(j) != 0) <==> i == j
    ensures Bit(i) & !FULL_MASK == 0
  {
  }

  /** Setting bit `j` of a mask sets bit `j` and leaves every other bit as it was,
      and keeps the mask within the low eight bits. */
  lemma SetBit(m: bv32, i: nat, j: nat)
    requires i < BATCH_SIZE && j < BATCH_SIZE
    ensures ((m | Bit(j)) & Bit(i) != 0) <==> (i == j || m & Bit(i) != 0)
    ensures m & !FULL_MASK == 0 ==> (m | Bit(j)) & !FULL_MASK == 0
  {
    BitsDistinct(i, j);
  }

  /** The mask has exactly the bits of the slots marked received. */
  ghost predicate MaskAgrees(mask: bv32, cache: seq<Slot>)
    requires |cache| == BATCH_SIZE
  {
    && mask & !FULL_MASK == 0
    && forall i :: 0 <= i < BATCH_SIZE ==> (mask & Bit(i) != 0 <==> cache[i].received)
  }

  /** What stays true of the batch cache and the queue between calls. */
  ghost predicate BatcherInv(b: Batcher)
  {
    && |b.cache| == BATCH_SIZE
    && (forall i :: 0 <= i < BATCH_SIZE ==> |b.cache[i].packet| == PACKET_SIZE)
    && MaskAgrees(b.mask, b.cache)
    && |b.queue| <= QUEUE_SIZE
    && (forall k :: 0 <= k < |b.queue| ==> |b.queue[k].data| == BATCH_SIZE * PACKET_SIZE)
  }

  ghost predicate CoreInv(c: Core)
  {
    BatcherInv(c.batcher) && c.tracker.lastSequence < BATCH_SIZE
  }

  /** What stays true of the file's state between calls. */
  ghost predicate Inv(s: State)
  {
    CoreInv(s.core) && |s.pending| < PACKET_SIZE
  }

  /** The mask test `cache_received_mask == 0xFF` means "every slot is filled",
      and a zero mask means "no slot is filled". */
  lemma FullMaskIffAllReceived(b: Batcher)
    requires BatcherInv(b)
    ensures b.mask == FULL_MASK <==> forall i :: 0 <= i < BATCH_SIZE ==> b.cache[i].received
    ensures b.mask == 0 <==> forall i :: 0 <= i < BATCH_SIZE ==> !b.cache[i].received
  {
    var m := b.mask;
    assert m & !FULL_MASK == 0;
    assert m & Bit(0) != 0 <==> b.cache[0].received;
    assert m & Bit(1) != 0 <==> b.cache[1].received;
    assert m & Bit(2) != 0 <==> b.cache[2].received;
    assert m & Bit(3) != 0 <==> b.cache[3].received;
    assert m & Bit(4) != 0 <==> b.cache[4].received;
    assert m & Bit(5) != 0 <==> b.cache[5].received;
    assert m & Bit(6) != 0 <==> b.cache[6].received;
    assert m & Bit(7) != 0 <==> b.cache[7].received;
  }

  /** Every slot's `received` flag cleared; packets and timestamps stay behind. */
  function ClearedSlots(cache: seq<Slot>): seq<Slot>
  {
    seq(|cache|, i requires 0 <= i < |cache| => cache[i].(received := false))
  }

  /** The cache emptied: no slot received, mask zero. */
  function EmptyCache(b: Batcher): (r: Batcher)
  {
    b.(cache := ClearedSlots(b.cache), mask := 0)
  }

  /** The zero-initialised static `uart_stats` after `lidar_packet_init`;
      `created` says whether `xQueueCreate` succeeded. */
  function Initial(created: bool): State
  {
    State(0, [], Core(Tracker(0, 0, 0, 0, true),
      Batcher(seq(BATCH_SIZE, _ => Slot(seq(PACKET_SIZE, _ => 0), false, 0)), 0, 0, 0, created, [])))
  }

  /** `lidar_reset_stats`: counters zeroed, tracking restarted, tail dropped,
      cache emptied; the queue and its contents are untouched. */
  function ResetSpec(s: State): (r: State)
  {
    State(0, [], Core(Tracker(0, 0, 0, 0, true),
      EmptyCache(s.core.batcher).(batchesSent := 0, incompleteBatches := 0)))
  }

  /** The initial state satisfies the invariant, and so does every reset. */
  lemma ResetEstablishesInv(s: State, created: bool)
    requires |s.core.batcher.cache| == BATCH_SIZE
    requires forall i :: 0 <= i < BATCH_SIZE ==> |s.core.batcher.cache[i].packet| == PACKET_SIZE
    requires |s.core.batcher.queue| <= QUEUE_SIZE
    requires forall k :: 0 <= k < |s.core.batcher.queue| ==> |s.core.batcher.queue[k].data| == BATCH_SIZE * PACKET_SIZE
    ensures Inv(Initial(created)) && Inv(ResetSpec(s))
    ensures ResetSpec(ResetSpec(s)) == ResetSpec(s)
    ensures ResetSpec(s).core.batcher.queue == s.core.batcher.queue
  {
    forall i | 0 <= i < BATCH_SIZE ensures Bit(i) & 0 == 0 { }
    assert ClearedSlots(ClearedSlots(s.core.batcher.cache)) == ClearedSlots(s.core.batcher.cache);
  }

  // ---------------------------------------------------------------------
  // lidar_cache_packet
  // ---------------------------------------------------------------------

  /** `lidar_cache_packet`: store the packet in the slot named by its sequence
      number (replacing a duplicate) and set that bit of the mask. */
  function CacheSpec(b: Batcher, p: seq<byte>, now: u32): (r: Batcher)
    requires |b.cache| == BATCH_SIZE && |p| == PACKET_SIZE
    ensures |r.cache| == BATCH_SIZE && r.queue == b.queue
  {
    var sq := Sequence(p);
    if sq >= BATCH_SIZE then b
    else b.(cache := b.cache[sq := Slot(p, true, now)], mask := b.mask | Bit(sq))
  }

  /** Caching touches exactly one slot and one bit; the mask only gains bits;
      a sequence number of 8 or more changes nothing. */
  lemma CacheOnlyTouchesItsSlot(b: Batcher, p: seq<byte>, now: u32)
    requires |b.cache| == BATCH_SIZE && |p| == PACKET_SIZE
    ensures Sequence(p) >= BATCH_SIZE ==> CacheSpec(b, p, now) == b
    ensures Sequence(p) < BATCH_SIZE ==>
      var r := CacheSpec(b, p, now);
      && r.cache[Sequence(p)] == Slot(p, true, now)
      && (forall i :: 0 <= i < BATCH_SIZE && i != Sequence(p) ==> r.cache[i] == b.cache[i])
      && r.mask & Bit(Sequence(p)) != 0
      && r.mask & b.mask == b.mask
      && r == b.(cache := r.cache, mask := r.mask)
  {
    if Sequence(p) < BATCH_SIZE {
      var sq := Sequence(p);
      BitsDistinct(sq, sq);
    }
  }

  /** Filling slot `j` and setting bit `j` keeps mask and slots in agreement. */
  lemma MarkReceived(mask: bv32, cache: seq<Slot>, j: nat, slot: Slot)
    requires |cache| == BATCH_SIZE && j < BATCH_SIZE && slot.received
    requires MaskAgrees(mask, cache)
    ensures MaskAgrees(mask | Bit(j), cache[j := slot])
  {
    forall i | 0 <= i < BATCH_SIZE
      ensures (mask | Bit(j)) & Bit(i) != 0 <==> cache[j := slot][i].received
    {
      SetBit(mask, i, j);
    }
    SetBit(mask, j, j);
  }

  /** Caching keeps the mask in agreement with the slots' `received` flags. */
  lemma CachePreservesInv(b: Batcher, p: seq<byte>, now: u32)
    requires BatcherInv(b) && |p| == PACKET_SIZE
    ensures BatcherInv(CacheSpec(b, p, now))
  {
    var sq := Sequence(p);
    if sq < BATCH_SIZE {
      MarkReceived(b.mask, b.cache, sq, Slot(p, true, now));
    }
  }

  // ---------------------------------------------------------------------
  // The bounded, non-blocking FIFO
  // ---------------------------------------------------------------------

  /** `xQueueSend(queue, item, 0)` on a queue of capacity `QUEUE_SIZE`:
      appends at the back when there is room, otherwise rejects at once;
      a queue that was never created rejects every item. */
  function QueueSend(created: bool, q: seq<BatchItem>, item: BatchItem): (r: (bool, seq<BatchItem>))
  {
    if created && |q| < QUEUE_SIZE then (true, q + [item]) else (false, q)
  }

  /** `xQueueReceive`: the item at the front comes out first. */
  function QueueReceive(q: seq<BatchItem>): (r: Option<(BatchItem, seq<BatchItem>)>)
    ensures r.None? <==> q == []
  {
    if q == [] then None else Some((q[0], q[1..]))
  }

  /** The FIFO never exceeds its capacity, never blocks, and hands items out
      in the order they were accepted. */
  lemma QueueIsBoundedFifo(created: bool, q: seq<BatchItem>, item: BatchItem)
    requires |q| <= QUEUE_SIZE
    ensures var (ok, q') := QueueSend(created, q, item);
      && |q'| <= QUEUE_SIZE
      && (ok <==> created && |q| < QUEUE_SIZE)
      && (ok ==>
            && q' == q + [item] && QueueReceive(q').Some?
            && QueueReceive(q').value.0 == (if q == [] then item else q[0])
            && QueueReceive(q').value.1 == (if q == [] then [] else q[1..] + [item]))
      && (!ok ==> q' == q)
  {
    var (ok, q') := QueueSend(created, q, item);
    if ok && q != [] {
      assert q'[1..] == q[1..] + [item];
    }
  }

  // ---------------------------------------------------------------------
  // lidar_check_and_send_batch
  // ---------------------------------------------------------------------

  /** The packets of slots `0 .. n-1`, concatenated in slot order. */
  function JoinedSlots(cache: seq<Slot>, n: nat): seq<byte>
    requires n <= |cache|
  {
    if n == 0 then [] else JoinedSlots(cache, n - 1) + cache[n - 1].packet
  }

  /** With packet-sized slots, the concatenation has slot `k` at offset `k * PACKET_SIZE`. */
  lemma {:induction false} JoinedSlotsLayout(cache: seq<Slot>, n: nat)
    requires n <= |cache|
    requires forall i :: 0 <= i < |cache| ==> |cache[i].packet| == PACKET_SIZE
    ensures |JoinedSlots(cache, n)| == n * PACKET_SIZE
    ensures forall k :: 0 <= k < n ==>
      JoinedSlots(cache, n)[k * PACKET_SIZE .. (k + 1) * PACKET_SIZE] == cache[k].packet
  {
    if n > 0 {
      JoinedSlotsLayout(cache, n - 1);
      var prev := JoinedSlots(cache, n - 1);
      forall k | 0 <= k < n
        ensures JoinedSlots(cache, n)[k * PACKET_SIZE .. (k + 1) * PACKET_SIZE] == cache[k].packet
      {
        if k < n - 1 {
          assert JoinedSlots(cache, n)[k * PACKET_SIZE .. (k + 1) * PACKET_SIZE]
              == prev[k * PACKET_SIZE .. (k + 1) * PACKET_SIZE];
        } else {
          assert JoinedSlots(cache, n)[k * PACKET_SIZE .. (k + 1) * PACKET_SIZE]
              == JoinedSlots(cache, n)[|prev|..];
        }
      }
    }
  }

  /** The scan of `lidar_check_and_send_batch` for the oldest timestamp among
      received slots `i ..`, starting from `acc`. */
  function Oldest(cache: seq<Slot>, i: nat, acc: u32): u32
    requires i <= |cache|
    decreases |cache| - i
  {
    if i == |cache| then acc
    else Oldest(cache, i + 1, if cache[i].received && cache[i].timestamp < acc then cache[i].timestamp else acc)
  }

  /** The scan yields the smallest timestamp among received slots, or `acc`
      when none is smaller. */
  lemma {:induction false} OldestIsMinimum(cache: seq<Slot>, i: nat, acc: u32)
    requires i <= |cache|
    decreases |cache| - i
    ensures var r := Oldest(cache, i, acc);
      && r <= acc
      && (forall j :: i <= j < |cache| && cache[j].received ==> r <= cache[j].timestamp)
      && (r == acc || exists j :: i <= j < |cache| && cache[j].received && cache[j].timestamp == r)
  {
    if i < |cache| {
      OldestIsMinimum(cache, i + 1, if cache[i].received && cache[i].timestamp < acc then cache[i].timestamp else acc);
    }
  }

  /** `lidar_check_and_send_batch` at tick `now`. */
  function CheckSpec(b: Batcher, now: u32, tickRateHz: nat): (r: Batcher)
    requires |b.cache| == BATCH_SIZE
    ensures |r.cache| == BATCH_SIZE && r.queueCreated == b.queueCreated
    ensures |b.queue| <= |r.queue| <= |b.queue| + 1
  {
    if b.mask == FULL_MASK then
      var item := BatchItem(JoinedSlots(b.cache, BATCH_SIZE), now, 0xFF);
      var (sent, q) := QueueSend(b.queueCreated, b.queue, item);
      EmptyCache(b.(queue := q, batchesSent := if sent then b.batchesSent + 1 else b.batchesSent))
    else if b.mask != 0 then
      var oldest := Oldest(b.cache, 0, UINT32_MAX);
      if oldest != UINT32_MAX && Sub32(now, oldest) > MsToTicks(BATCH_TIMEOUT_MS, tickRateHz) then
        EmptyCache(b.(incompleteBatches := b.incompleteBatches + 1))
      else b
    else b
  }

  /** A full mask emits one batch holding slots 0..7 in sequence order,
      8 * 352 bytes, counts it only if the queue took it, and empties the
      cache either way. */
  lemma FullBatchInSequenceOrder(b: Batcher, now: u32, tickRateHz: nat)
    requires BatcherInv(b) && b.mask == FULL_MASK
    ensures var r := CheckSpec(b, now, tickRateHz);
      var accepted := b.queueCreated && |b.queue| < QUEUE_SIZE;
      && (accepted ==>
            && |r.queue| == |b.queue| + 1 && r.queue[..|b.queue|] == b.queue
            && r.batchesSent == b.batchesSent + 1
            && |r.queue[|b.queue|].data| == BATCH_SIZE * PACKET_SIZE
            && r.queue[|b.queue|].timestamp == now
            && (forall k :: 0 <= k < BATCH_SIZE ==>
                  r.queue[|b.queue|].data[k * PACKET_SIZE .. (k + 1) * PACKET_SIZE] == b.cache[k].packet))
      && (!accepted ==> r.queue == b.queue && r.batchesSent == b.batchesSent)
      && r.mask == 0 && (forall i :: 0 <= i < BATCH_SIZE ==> !r.cache[i].received)
      && r.incompleteBatches == b.incompleteBatches
  {
    JoinedSlotsLayout(b.cache, BATCH_SIZE);
  }

  /** A partial batch is dropped, and counted once, exactly when its oldest
      packet is older than the timeout (unsigned tick subtraction);
      otherwise nothing changes. An empty cache is left alone. */
  lemma PartialBatchTimeout(b: Batcher, now: u32, tickRateHz: nat)
    requires BatcherInv(b) && b.mask != FULL_MASK
    ensures var r := CheckSpec(b, now, tickRateHz);
      var stale := b.mask != 0
        && (exists i :: 0 <= i < BATCH_SIZE && b.cache[i].received && b.cache[i].timestamp < UINT32_MAX)
        && Sub32(now, Oldest(b.cache, 0, UINT32_MAX)) > MsToTicks(BATCH_TIMEOUT_MS, tickRateHz);
      && (stale ==> r == EmptyCache(b.(incompleteBatches := b.incompleteBatches + 1)))
      && (!stale ==> r == b)
  {
    var oldest := Oldest(b.cache, 0, UINT32_MAX);
    OldestIsMinimum(b.cache, 0, UINT32_MAX);
    if oldest != UINT32_MAX {
      var j :| 0 <= j < BATCH_SIZE && b.cache[j].received && b.cache[j].timestamp == oldest;
    }
  }

  /** Emptying the cache keeps the invariant. */
  lemma EmptyCacheInv(b: Batcher)
    requires BatcherInv(b)
    ensures BatcherInv(EmptyCache(b))
  {
    var r := EmptyCache(b);
    forall i | 0 <= i < BATCH_SIZE ensures r.mask & Bit(i) == 0 && !r.cache[i].received { }
  }

  /** The batch check keeps the cache-and-queue invariant. */
  lemma CheckPreservesInv(b: Batcher, now: u32, tickRateHz: nat)
    requires BatcherInv(b)
    ensures BatcherInv(CheckSpec(b, now, tickRateHz))
  {
    if b.mask == FULL_MASK {
      JoinedSlotsLayout(b.cache, BATCH_SIZE);
      var item := BatchItem(JoinedSlots(b.cache, BATCH_SIZE), now, 0xFF);
      var (sent, q) := QueueSend(b.queueCreated, b.queue, item);
      EmptyCacheInv(b.(queue := q, batchesSent := if sent then b.batchesSent + 1 else b.batchesSent));
    } else {
      EmptyCacheInv(b.(incompleteBatches := b.incompleteBatches + 1));
    }
  }

  // ---------------------------------------------------------------------
  // process_valid_packet
  // ---------------------------------------------------------------------

  /** The `lost` computed for a packet with sequence `sq` when `expected` was due. */
  function LostCount(sq: nat, expected: nat): (lost: int)
    ensures sq < BATCH_SIZE && expected < BATCH_SIZE ==>
      && 0 <= lost < BATCH_SIZE
      && (lost == 0 <==> sq == expected)
      && (expected + lost) % BATCH_SIZE == sq
  {
    if sq >= expected then sq - expected else (8 - expected) + sq
  }

  /** Record the packet as `last_sequence`, cache it, then run the batch check. */
  function Accept(t: Tracker, b: Batcher, p: seq<byte>, now: u32, tickRateHz: nat): (r: Core)
    requires |b.cache| == BATCH_SIZE && |p| == PACKET_SIZE
    ensures |r.batcher.cache| == BATCH_SIZE
  {
    Core(t.(lastSequence := Sequence(p)), CheckSpec(CacheSpec(b, p, now), now, tickRateHz))
  }

  /** The sequence bookkeeping of `process_valid_packet`: the updated counters,
      and whether the packet goes on to be cached (`false` on the two early
      returns). */
  function Track(t: Tracker, p: seq<byte>): (r: (Tracker, bool))
    requires |p| >= 4
    ensures r.0.packetsDetected == t.packetsDetected + 1
    ensures r.1 ==> !r.0.firstPacket
  {
    var t1 := t.(packetsDetected := t.packetsDetected + 1);
    var sq := Sequence(p);
    var expected := (t.lastSequence + 1) % 8;
    if !t.firstPacket && sq != expected then
      var t2 := t1.(sequenceErrors := t1.sequenceErrors + 1);
      var lost := LostCount(sq, expected);
      if 0 < lost <= 4 then (t2.(packetsLost := t2.packetsLost + lost), true)
      else if lost == 0 then (t2, false)
      else (t2.(firstPacket := true), false)
    else
      (t1.(firstPacket := false), true)
  }

  /** `process_valid_packet` for a packet that passed `lidar_validate_packet`. */
  function ProcessValidSpec(c: Core, p: seq<byte>, now: u32, tickRateHz: nat): (r: Core)
    requires |c.batcher.cache| == BATCH_SIZE && |p| == PACKET_SIZE && ValidatePacket(p)
    ensures |r.batcher.cache| == BATCH_SIZE
    ensures r.tracker.packetsDetected == c.tracker.packetsDetected + 1
  {
    var (t, keep) := Track(c.tracker, p);
    if keep then Accept(t, c.batcher, p, now, tickRateHz) else Core(t, c.batcher)
  }

  /** Sequence accounting of `process_valid_packet`: every call is detected;
      a mismatch is one sequence error; a gap of 1..4 is added to the loss
      count and the packet is still cached; a gap of 5..7 restarts tracking
      without caching; the "duplicate" branch (`lost == 0`) is never taken. */
  lemma SequenceAccounting(c: Core, p: seq<byte>, now: u32, tickRateHz: nat)
    requires CoreInv(c) && |p| == PACKET_SIZE && ValidatePacket(p)
    ensures var r := ProcessValidSpec(c, p, now, tickRateHz);
      var t := c.tracker;
      var expected := (t.lastSequence + 1) % 8;
      var mismatch := !t.firstPacket && Sequence(p) != expected;
      var lost := LostCount(Sequence(p), expected);
      && r.tracker.packetsDetected == t.packetsDetected + 1
      && r.tracker.sequenceErrors == t.sequenceErrors + (if mismatch then 1 else 0)
      && (mismatch ==> 1 <= lost <= 7)
      && (mismatch && lost >= 5 ==>
            && r.batcher == c.batcher
            && r.tracker == t.(packetsDetected := t.packetsDetected + 1,
                               sequenceErrors := t.sequenceErrors + 1, firstPacket := true))
      && (!mismatch || lost <= 4 ==>
            && r.tracker == t.(packetsDetected := t.packetsDetected + 1,
                               sequenceErrors := r.tracker.sequenceErrors,
                               packetsLost := t.packetsLost + (if mismatch then lost else 0),
                               firstPacket := false, lastSequence := Sequence(p))
            && r.batcher == CheckSpec(CacheSpec(c.batcher, p, now), now, tickRateHz))
  {
  }

  /** The batch check runs only right after a packet is cached, so a timeout
      clear also throws away the packet that triggered it. */
  lemma TimeoutDropsTriggeringPacket(b: Batcher, p: seq<byte>, now: u32, tickRateHz: nat)
    requires BatcherInv(b) && |p| == PACKET_SIZE && ValidatePacket(p)
    requires var c := CacheSpec(b, p, now);
      c.mask != FULL_MASK && CheckSpec(c, now, tickRateHz).incompleteBatches == c.incompleteBatches + 1
    ensures var c := CacheSpec(b, p, now);
      c.cache[Sequence(p)].received && !CheckSpec(c, now, tickRateHz).cache[Sequence(p)].received
  {
  }

  /** Processing a packet keeps the invariant. */
  lemma ProcessValidPreservesInv(c: Core, p: seq<byte>, now: u32, tickRateHz: nat)
    requires CoreInv(c) && |p| == PACKET_SIZE && ValidatePacket(p)
    ensures CoreInv(ProcessValidSpec(c, p, now, tickRateHz))
  {
    CachePreservesInv(c.batcher, p, now);
    CheckPreservesInv(CacheSpec(c.batcher, p, now), now, tickRateHz);
  }

  // ---------------------------------------------------------------------
  // lidar_analyze_data: the scan
  // ---------------------------------------------------------------------

  /** The framer accepts offset `i` when the header bytes match there and the
      packet-sized window starting there validates. */
  predicate AcceptAt(buf: seq<byte>, i: nat)
    requires i + PACKET_SIZE <= |buf|
  {
    HeaderAt(buf, i) && ValidatePacket(buf[i..i + PACKET_SIZE])
  }

  /** What a scan found: the offsets of the accepted packets and the offset
      at which the loop stopped. */
  datatype Scan = Scan(offsets: seq<nat>, exit: nat)

  /** Accepted offsets at or after `from`, each a whole window inside `buf`,
      in increasing order and non-overlapping. */
  ghost predicate WellSpaced(buf: seq<byte>, offs: seq<nat>, from: nat)
  {
    && (forall k :: 0 <= k < |offs| ==> from <= offs[k] && offs[k] + PACKET_SIZE <= |buf| && AcceptAt(buf, offs[k]))
    && (forall k, l :: 0 <= k < l < |offs| ==> offs[k] + PACKET_SIZE <= offs[l])
  }

  /** The loop of `lidar_analyze_data` from offset `i`: try every offset, and
      after an accepted packet resume just past it; stop at the first offset
      with less than a packet left. */
  function ScanFrom(buf: seq<byte>, i: nat): (r: Scan)
    decreases |buf| - i
    ensures i <= r.exit && |buf| < r.exit + PACKET_SIZE
    ensures i <= |buf| ==> r.exit <= |buf|
    ensures r.offsets != [] ==> r.offsets[|r.offsets| - 1] + PACKET_SIZE <= r.exit
  {
    if i + PACKET_SIZE > |buf| then Scan([], i)
    else if AcceptAt(buf, i) then
      var rest := ScanFrom(buf, i + PACKET_SIZE);
      Scan([i] + rest.offsets, rest.exit)
    else ScanFrom(buf, i + 1)
  }

  /** Prepending an accepted offset `i` to offsets well spaced from `i + PACKET_SIZE`
      gives offsets well spaced from `i`. */
  lemma WellSpacedCons(buf: seq<byte>, i: nat, rest: seq<nat>)
    requires i + PACKET_SIZE <= |buf| && AcceptAt(buf, i)
    requires WellSpaced(buf, rest, i + PACKET_SIZE)
    ensures WellSpaced(buf, [i] + rest, i)
  {
    var offs := [i] + rest;
    forall k, l | 0 <= k < l < |offs| ensures offs[k] + PACKET_SIZE <= offs[l] {
      assert offs[l] == rest[l - 1];
    }
  }

  /** The accepted offsets are whole, accepted, increasing and non-overlapping windows. */
  lemma {:induction false} ScanWellSpaced(buf: seq<byte>, i: nat)
    decreases |buf| - i
    ensures WellSpaced(buf, ScanFrom(buf, i).offsets, i)
  {
    if i + PACKET_SIZE <= |buf| {
      if AcceptAt(buf, i) {
        ScanWellSpaced(buf, i + PACKET_SIZE);
        WellSpacedCons(buf, i, ScanFrom(buf, i + PACKET_SIZE).offsets);
      } else {
        ScanWellSpaced(buf, i + 1);
        assert ScanFrom(buf, i) == ScanFrom(buf, i + 1);
      }
    }
  }

  /** The end of the last accepted packet (or `i`) is either where the loop
      stopped or at least a whole packet before the end of the buffer. */
  lemma {:induction false} ScanLastEnd(buf: seq<byte>, i: nat)
    decreases |buf| - i
    ensures var r := ScanFrom(buf, i);
      var lastEnd := if r.offsets == [] then i else r.offsets[|r.offsets| - 1] + PACKET_SIZE;
      lastEnd == r.exit || (lastEnd < r.exit && r.exit + PACKET_SIZE <= |buf| + 1)
  {
    if i + PACKET_SIZE <= |buf| {
      if AcceptAt(buf, i) {
        ScanLastEnd(buf, i + PACKET_SIZE);
      } else {
        ScanLastEnd(buf, i + 1);
      }
    }
  }

  /** C's `processed`: the end of the last accepted packet, or 0. */
  function Processed(r: Scan): nat
  {
    if r.offsets == [] then 0 else r.offsets[|r.offsets| - 1] + PACKET_SIZE
  }

  /** The packets at the given offsets. */
  function Windows(buf: seq<byte>, offs: seq<nat>): (ps: seq<seq<byte>>)
    requires forall k :: 0 <= k < |offs| ==> offs[k] + PACKET_SIZE <= |buf|
    ensures |ps| == |offs|
  {
    seq(|offs|, k requires 0 <= k < |offs| => buf[offs[k]..offs[k] + PACKET_SIZE])
  }

  /** Packets the framer hands on: packet-sized and valid. */
  ghost predicate AllValid(ps: seq<seq<byte>>)
  {
    forall k :: 0 <= k < |ps| ==> |ps[k]| == PACKET_SIZE && ValidatePacket(ps[k])
  }

  /** Every accepted packet starts with the header and validates. */
  lemma AcceptedWindowsValid(buf: seq<byte>, offs: seq<nat>, from: nat)
    requires WellSpaced(buf, offs, from)
    ensures AllValid(Windows(buf, offs))
    ensures forall k :: 0 <= k < |offs| ==> Windows(buf, offs)[k][0] == HEADER_0 && Windows(buf, offs)[k][1] == HEADER_1
  {
  }

  /** The packets one call of `lidar_analyze_data` hands on, in order. */
  function Accepted(buf: seq<byte>): (ps: seq<seq<byte>>)
    ensures AllValid(ps) && |ps| == |ScanFrom(buf, 0).offsets|
  {
    ScanWellSpaced(buf, 0);
    AcceptedWindowsValid(buf, ScanFrom(buf, 0).offsets, 0);
    Windows(buf, ScanFrom(buf, 0).offsets)
  }

  /** `process_valid_packet` applied to each packet in turn. */
  function ProcessAll(c: Core, ps: seq<seq<byte>>, now: u32, tickRateHz: nat): (r: Core)
    requires |c.batcher.cache| == BATCH_SIZE && AllValid(ps)
    ensures |r.batcher.cache| == BATCH_SIZE
    ensures r.tracker.packetsDetected == c.tracker.packetsDetected + |ps|
  {
    if ps == [] then c
    else ProcessValidSpec(ProcessAll(c, ps[..|ps| - 1], now, tickRateHz), ps[|ps| - 1], now, tickRateHz)
  }

  /** Processing two runs of packets one after the other is processing their concatenation. */
  lemma {:induction false} ProcessAllAppend(c: Core, xs: seq<seq<byte>>, ys: seq<seq<byte>>, now: u32, tickRateHz: nat)
    requires |c.batcher.cache| == BATCH_SIZE && AllValid(xs) && AllValid(ys)
    ensures AllValid(xs + ys)
    ensures ProcessAll(c, xs + ys, now, tickRateHz) == ProcessAll(ProcessAll(c, xs, now, tickRateHz), ys, now, tickRateHz)
  {
    if ys == [] {
      assert xs + ys == xs;
    } else {
      var ys' := ys[..|ys| - 1];
      ProcessAllAppend(c, xs, ys', now, tickRateHz);
      assert (xs + ys)[..|xs + ys| - 1] == xs + ys';
    }
  }

  /** Processing keeps the invariant. */
  lemma {:induction false} ProcessAllPreservesInv(c: Core, ps: seq<seq<byte>>, now: u32, tickRateHz: nat)
    requires CoreInv(c) && AllValid(ps)
    ensures CoreInv(ProcessAll(c, ps, now, tickRateHz))
  {
    if ps != [] {
      ProcessAllPreservesInv(c, ps[..|ps| - 1], now, tickRateHz);
      ProcessValidPreservesInv(ProcessAll(c, ps[..|ps| - 1], now, tickRateHz), ps[|ps| - 1], now, tickRateHz);
    }
  }

  /** The packets the scan accepts from offset `i` on, in order. */
  function AcceptedFrom(buf: seq<byte>, i: nat): (ps: seq<seq<byte>>)
    ensures AllValid(ps) && |ps| == |ScanFrom(buf, i).offsets|
  {
    ScanWellSpaced(buf, i);
    AcceptedWindowsValid(buf, ScanFrom(buf, i).offsets, i);
    Windows(buf, ScanFrom(buf, i).offsets)
  }

  /** The windows at `[o] + offs` are the window at `o` followed by those at `offs`. */
  lemma WindowsCons(buf: seq<byte>, o: nat, offs: seq<nat>)
    requires o + PACKET_SIZE <= |buf|
    requires forall k :: 0 <= k < |offs| ==> offs[k] + PACKET_SIZE <= |buf|
    ensures Windows(buf, [o] + offs) == [buf[o..o + PACKET_SIZE]] + Windows(buf, offs)
  {
    var ws := Windows(buf, [o] + offs);
    assert forall k :: 0 <= k < |offs| ==> ws[k + 1] == Windows(buf, offs)[k];
  }

  /** One accepting step of the scan loop: the window at `i` is the first
      packet accepted from `i`, and scanning resumes just past it. */
  lemma ScanAcceptStep(buf: seq<byte>, i: nat)
    requires i + PACKET_SIZE <= |buf| && AcceptAt(buf, i)
    ensures ScanFrom(buf, i).offsets != [] && ScanFrom(buf, i).exit == ScanFrom(buf, i + PACKET_SIZE).exit
    ensures Processed(ScanFrom(buf, i))
         == if ScanFrom(buf, i + PACKET_SIZE).offsets == [] then i + PACKET_SIZE
            else Processed(ScanFrom(buf, i + PACKET_SIZE))
    ensures AcceptedFrom(buf, i) == [buf[i..i + PACKET_SIZE]] + AcceptedFrom(buf, i + PACKET_SIZE)
  {
    var rest := ScanFrom(buf, i + PACKET_SIZE).offsets;
    assert ScanFrom(buf, i).offsets == [i] + rest;
    ScanWellSpaced(buf, i + PACKET_SIZE);
    WindowsCons(buf, i, rest);
  }

  /** What the scan loop keeps true: `done` are the packets accepted before
      offset `i`, and `processed` is where the last of them ends. */
  ghost predicate ScanLoopInv(buf: seq<byte>, done: seq<seq<byte>>, i: nat, processed: nat)
  {
    && AllValid(done) && Accepted(buf) == done + AcceptedFrom(buf, i)
    && processed <= i
    && Processed(ScanFrom(buf, 0))
       == if ScanFrom(buf, i).offsets == [] then processed else Processed(ScanFrom(buf, i))
  }

  /** Accepting the packet at `i` keeps the loop invariant. */
  lemma ScanLoopAccept(buf: seq<byte>, done: seq<seq<byte>>, i: nat, processed: nat)
    requires i + PACKET_SIZE <= |buf| && AcceptAt(buf, i)
    requires ScanLoopInv(buf, done, i, processed)
    ensures ScanLoopInv(buf, done + [buf[i..i + PACKET_SIZE]], i + PACKET_SIZE, i + PACKET_SIZE)
  {
    var packet := buf[i..i + PACKET_SIZE];
    ScanAcceptStep(buf, i);
    assert done + ([packet] + AcceptedFrom(buf, i + PACKET_SIZE))
        == (done + [packet]) + AcceptedFrom(buf, i + PACKET_SIZE);
  }

  /** A rejected offset is skipped one byte at a time. */
  lemma ScanSkipStep(buf: seq<byte>, i: nat)
    requires i + PACKET_SIZE <= |buf| && !AcceptAt(buf, i)
    ensures ScanFrom(buf, i) == ScanFrom(buf, i + 1)
  {
  }

  /** `lidar_analyze_data` as written: the carried-over tail is kept only when
      fewer than a packet's worth of bytes follow the last accepted packet;
      a longer tail is dropped whole. */
  function AsWrittenPending(buf: seq<byte>, processed: nat): (r: seq<byte>)
    requires processed <= |buf|
  {
    var remaining := |buf| - processed;
    if 0 < remaining < PACKET_SIZE then buf[processed..] else []
  }

  /** `lidar_analyze_data(data, len)` at tick `now`. */
  function AnalyzeSpec(s: State, data: seq<byte>, now: u32, tickRateHz: nat): (r: State)
    requires |s.core.batcher.cache| == BATCH_SIZE
    ensures r.totalBytesReceived == s.totalBytesReceived + |data|
    ensures |r.pending| < PACKET_SIZE && |r.core.batcher.cache| == BATCH_SIZE
  {
    var buf := s.pending + data;
    State(s.totalBytesReceived + |data|, AsWrittenPending(buf, Processed(ScanFrom(buf, 0))),
          ProcessAll(s.core, Accepted(buf), now, tickRateHz))
  }

  /** The framer's guarantees for one call: the accepted packets are the
      non-overlapping windows at increasing offsets of pending ++ data, each
      starting with the header and valid; the new tail is shorter than a
      packet and is the bytes after the last accepted packet when there are
      fewer than a packet's worth of them, and empty otherwise. */
  lemma AnalyzeFraming(s: State, data: seq<byte>, now: u32, tickRateHz: nat)
    requires Inv(s)
    ensures var buf := s.pending + data;
      var scan := ScanFrom(buf, 0);
      var r := AnalyzeSpec(s, data, now, tickRateHz);
      && WellSpaced(buf, scan.offsets, 0)
      && Inv(r)
      && r.core == ProcessAll(s.core, Windows(buf, scan.offsets), now, tickRateHz)
      && Accepted(buf) == Windows(buf, scan.offsets)
      && (|buf| - Processed(scan) < PACKET_SIZE ==> r.pending == buf[Processed(scan)..])
      && (|buf| - Processed(scan) >= PACKET_SIZE ==> r.pending == [])
  {
    var buf := s.pending + data;
    var scan := ScanFrom(buf, 0);
    ScanWellSpaced(buf, 0);
    AcceptedWindowsValid(buf, scan.offsets, 0);
    ProcessAllPreservesInv(s.core, Windows(buf, scan.offsets), now, tickRateHz);
  }

  // ---------------------------------------------------------------------
  // Chunking: how the scan composes across reads
  // ---------------------------------------------------------------------

  /** Scanning `x + y` from `i` agrees with scanning `x` from `i` up to where
      that scan stopped, and goes on from there. */
  ghost predicate ExtendAgrees(x: seq<byte>, y: seq<byte>, i: nat)
  {
    ScanFrom(x + y, i)
      == Scan(ScanFrom(x, i).offsets + ScanFrom(x + y, ScanFrom(x, i).exit).offsets,
              ScanFrom(x + y, ScanFrom(x, i).exit).exit)
  }

  /** A window inside `x` is the same window of `x + y`. */
  lemma AcceptExtended(x: seq<byte>, y: seq<byte>, i: nat)
    requires i + PACKET_SIZE <= |x|
    ensures AcceptAt(x + y, i) == AcceptAt(x, i)
  {
    assert (x + y)[i..i + PACKET_SIZE] == x[i..i + PACKET_SIZE];
  }

  lemma ScanExtendsAccept(x: seq<byte>, y: seq<byte>, i: nat)
    requires i + PACKET_SIZE <= |x| && AcceptAt(x, i)
    requires ExtendAgrees(x, y, i + PACKET_SIZE)
    ensures ExtendAgrees(x, y, i)
  {
    AcceptExtended(x, y, i);
    var a := ScanFrom(x, i + PACKET_SIZE);
    var b := ScanFrom(x + y, a.exit);
    assert ScanFrom(x, i) == Scan([i] + a.offsets, a.exit);
    assert ScanFrom(x + y, i) == Scan([i] + (a.offsets + b.offsets), b.exit);
    assert [i] + (a.offsets + b.offsets) == ([i] + a.offsets) + b.offsets;
  }

  lemma ScanExtendsSkip(x: seq<byte>, y: seq<byte>, i: nat)
    requires i + PACKET_SIZE <= |x| && !AcceptAt(x, i)
    requires ExtendAgrees(x, y, i + 1)
    ensures ExtendAgrees(x, y, i)
  {
    AcceptExtended(x, y, i);
    assert ScanFrom(x, i) == ScanFrom(x, i + 1);
    assert ScanFrom(x + y, i) == ScanFrom(x + y, i + 1);
  }

  /** `ExtendAgrees` holds from every offset inside `x`, by induction on the bytes left. */
  lemma {:induction false} ScanExtends(x: seq<byte>, y: seq<byte>, i: nat)
    requires i <= |x|
    decreases |x| - i
    ensures ExtendAgrees(x, y, i)
  {
    if i + PACKET_SIZE <= |x| {
      if AcceptAt(x, i) {
        ScanExtends(x, y, i + PACKET_SIZE);
        ScanExtendsAccept(x, y, i);
      } else {
        ScanExtends(x, y, i + 1);
        ScanExtendsSkip(x, y, i);
      }
    } else {
      assert ScanFrom(x, i) == Scan([], i);
      assert [] + ScanFrom(x + y, i).offsets == ScanFrom(x + y, i).offsets;
    }
  }

  /** Every offset moved `k` bytes on. */
  function Shifted(offs: seq<nat>, k: nat): (r: seq<nat>)
    ensures |r| == |offs|
  {
    seq(|offs|, j requires 0 <= j < |offs| => offs[j] + k)
  }

  lemma ShiftedCons(x: nat, rest: seq<nat>, k: nat)
    ensures Shifted([x] + rest, k) == [x + k] + Shifted(rest, k)
  {
    var l := Shifted([x] + rest, k);
    var r := [x + k] + Shifted(rest, k);
    assert |l| == |r|;
    forall j | 0 <= j < |l| ensures l[j] == r[j] {
      if j > 0 { assert ([x] + rest)[j] == rest[j - 1]; }
    }
  }

  /** Scanning from `i` is scanning the suffix from `k` on, from `i - k`,
      with the offsets moved on by `k`. */
  ghost predicate ShiftAgrees(buf: seq<byte>, k: nat, i: nat)
    requires k <= |buf|
  {
    k <= i && ScanFrom(buf, i) == Scan(Shifted(ScanFrom(buf[k..], i - k).offsets, k), ScanFrom(buf[k..], i - k).exit + k)
  }

  /** The offset `i` is accepted in `buf` exactly when `i - k` is in the suffix from `k`. */
  lemma AcceptShifted(buf: seq<byte>, k: nat, i: nat)
    requires k <= i && i + PACKET_SIZE <= |buf|
    ensures AcceptAt(buf, i) == AcceptAt(buf[k..], i - k)
  {
    var suffix := buf[k..];
    assert suffix[i - k..i - k + PACKET_SIZE] == buf[i..i + PACKET_SIZE];
    assert suffix[i - k] == buf[i] && suffix[i - k + 1] == buf[i + 1];
  }

  lemma ScanShiftAccept(buf: seq<byte>, k: nat, i: nat)
    requires k <= i && i + PACKET_SIZE <= |buf| && AcceptAt(buf, i)
    requires ShiftAgrees(buf, k, i + PACKET_SIZE)
    ensures ShiftAgrees(buf, k, i)
  {
    AcceptShifted(buf, k, i);
    var r := ScanFrom(buf[k..], i + PACKET_SIZE - k);
    assert ScanFrom(buf[k..], i - k) == Scan([i - k] + r.offsets, r.exit);
    ShiftedCons(i - k, r.offsets, k);
  }

  lemma ScanShiftSkip(buf: seq<byte>, k: nat, i: nat)
    requires k <= i && i + PACKET_SIZE <= |buf| && !AcceptAt(buf, i)
    requires ShiftAgrees(buf, k, i + 1)
    ensures ShiftAgrees(buf, k, i)
  {
    AcceptShifted(buf, k, i);
    assert ScanFrom(buf[k..], i - k) == ScanFrom(buf[k..], i + 1 - k);
  }

  /** `ShiftAgrees` holds from every offset, by induction on the bytes left. */
  lemma {:induction false} ScanShift(buf: seq<byte>, k: nat, i: nat)
    requires k <= i && k <= |buf|
    decreases |buf| - i
    ensures ShiftAgrees(buf, k, i)
  {
    if i + PACKET_SIZE <= |buf| {
      if AcceptAt(buf, i) {
        ScanShift(buf, k, i + PACKET_SIZE);
        ScanShiftAccept(buf, k, i);
      } else {
        ScanShift(buf, k, i + 1);
        ScanShiftSkip(buf, k, i);
      }
    } else {
      assert Shifted([], k) == [];
    }
  }

  /** `lidar_analyze_data` with the tail the scan had not reached kept:
      everything from the offset where the loop stopped. */
  function AnalyzeFixed(s: State, data: seq<byte>, now: u32, tickRateHz: nat): (r: State)
    requires |s.core.batcher.cache| == BATCH_SIZE
    ensures r.totalBytesReceived == s.totalBytesReceived + |data|
    ensures |r.pending| < PACKET_SIZE && |r.core.batcher.cache| == BATCH_SIZE
  {
    var buf := s.pending + data;
    State(s.totalBytesReceived + |data|, buf[ScanFrom(buf, 0).exit..],
          ProcessAll(s.core, Accepted(buf), now, tickRateHz))
  }

  /** The two versions differ only when a packet's worth or more of bytes
      follows the last accepted packet: then the written code drops them all,
      the corrected one keeps the unscanned last `PACKET_SIZE - 1` of them. */
  lemma AsWrittenDiffersOnlyOnLongTail(s: State, data: seq<byte>, now: u32, tickRateHz: nat)
    requires |s.core.batcher.cache| == BATCH_SIZE
    ensures var buf := s.pending + data;
      var processed := Processed(ScanFrom(buf, 0));
      var w := AnalyzeSpec(s, data, now, tickRateHz);
      var f := AnalyzeFixed(s, data, now, tickRateHz);
      && w.core == f.core && w.totalBytesReceived == f.totalBytesReceived
      && (|buf| - processed < PACKET_SIZE ==> w.pending == f.pending)
      && (|buf| - processed >= PACKET_SIZE ==> w.pending == [] && |f.pending| == PACKET_SIZE - 1)
  {
    var buf := s.pending + data;
    var r := ScanFrom(buf, 0);
    ScanLastEnd(buf, 0);
    var w := AnalyzeSpec(s, data, now, tickRateHz);
    var f := AnalyzeFixed(s, data, now, tickRateHz);
    assert w.pending == AsWrittenPending(buf, Processed(r));
    assert f.pending == buf[r.exit..];
    if |buf| - Processed(r) < PACKET_SIZE {
      assert Processed(r) == r.exit;
    }
  }

  /** The windows at `xs + ys` are those at `xs` followed by those at `ys`. */
  lemma WindowsAppend(buf: seq<byte>, xs: seq<nat>, ys: seq<nat>)
    requires forall k :: 0 <= k < |xs| ==> xs[k] + PACKET_SIZE <= |buf|
    requires forall k :: 0 <= k < |ys| ==> ys[k] + PACKET_SIZE <= |buf|
    ensures forall k :: 0 <= k < |xs + ys| ==> (xs + ys)[k] + PACKET_SIZE <= |buf|
    ensures Windows(buf, xs + ys) == Windows(buf, xs) + Windows(buf, ys)
  {
    var l := Windows(buf, xs + ys);
    var r := Windows(buf, xs) + Windows(buf, ys);
    forall j | 0 <= j < |l| ensures l[j] == r[j] {
      if j >= |xs| {
        assert (xs + ys)[j] == ys[j - |xs|];
      }
    }
  }

  /** A window of `x` is the same window of `x + y`. */
  lemma WindowsPrefix(x: seq<byte>, y: seq<byte>, xs: seq<nat>)
    requires forall k :: 0 <= k < |xs| ==> xs[k] + PACKET_SIZE <= |x|
    ensures Windows(x + y, xs) == Windows(x, xs)
  {
    var l := Windows(x + y, xs);
    forall j | 0 <= j < |l| ensures l[j] == Windows(x, xs)[j] {
      assert (x + y)[xs[j]..xs[j] + PACKET_SIZE] == x[xs[j]..xs[j] + PACKET_SIZE];
    }
  }

  /** A window of the suffix from `t` is the window `t` bytes further on in the whole. */
  lemma WindowsShifted(buf: seq<byte>, t: nat, ys: seq<nat>)
    requires t <= |buf|
    requires forall k :: 0 <= k < |ys| ==> ys[k] + PACKET_SIZE <= |buf[t..]|
    ensures forall k :: 0 <= k < |ys| ==> Shifted(ys, t)[k] + PACKET_SIZE <= |buf|
    ensures Windows(buf, Shifted(ys, t)) == Windows(buf[t..], ys)
  {
    var l := Windows(buf, Shifted(ys, t));
    forall j | 0 <= j < |l| ensures l[j] == Windows(buf[t..], ys)[j] {
      var o := ys[j];
      assert buf[o + t..o + t + PACKET_SIZE] == buf[t..][o..o + PACKET_SIZE];
    }
  }

  /** Scanning `x + y` in one call, or in two calls where the second starts
      where the first stopped scanning, feeds the same packets to the core. */
  lemma CoreInTwoCalls(core: Core, x: seq<byte>, y: seq<byte>, now: u32, tickRateHz: nat)
    requires |core.batcher.cache| == BATCH_SIZE
    ensures var t := ScanFrom(x, 0).exit;
      && t <= |x|
      && ProcessAll(ProcessAll(core, Accepted(x), now, tickRateHz), Accepted(x[t..] + y), now, tickRateHz)
         == ProcessAll(core, Accepted(x + y), now, tickRateHz)
  {
    var t := ScanFrom(x, 0).exit;
    var xs, ys := Accepted(x), Accepted(x[t..] + y);
    assert Accepted(x + y) == xs + ys by {
      AcceptedSplit(x, y);
    }
    ProcessAllAppend(core, xs, ys, now, tickRateHz);
  }

  /** Scanning `x + y` in one call, or in two calls where the second starts
      where the first stopped scanning, leaves the same unscanned tail. */
  lemma TailInTwoCalls(x: seq<byte>, y: seq<byte>)
    ensures var t := ScanFrom(x, 0).exit;
      var x2 := x[t..] + y;
      && t <= |x|
      && (x + y)[ScanFrom(x + y, 0).exit..] == x2[ScanFrom(x2, 0).exit..]
  {
    var t := ScanFrom(x, 0).exit;
    var x2 := x[t..] + y;
    var e2 := ScanFrom(x2, 0).exit;
    assert ScanFrom(x + y, 0).exit == e2 + t by {
      AcceptedSplit(x, y);
    }
    assert (x + y)[t..] == x2;
    assert (x + y)[e2 + t..] == x2[e2..];
  }

  /** With the tail kept, how the serial stream is split into reads does not
      matter: two calls do exactly what one call on the joined bytes does. */
  lemma FixedChunkingInvariant(s: State, a: seq<byte>, b: seq<byte>, now: u32, tickRateHz: nat)
    requires |s.core.batcher.cache| == BATCH_SIZE
    ensures AnalyzeFixed(AnalyzeFixed(s, a, now, tickRateHz), b, now, tickRateHz)
         == AnalyzeFixed(s, a + b, now, tickRateHz)
  {
    var c := s.pending + a;
    var s1 := AnalyzeFixed(s, a, now, tickRateHz);
    assert s1.pending + b == c[ScanFrom(c, 0).exit..] + b;
    assert s.pending + (a + b) == c + b;
    CoreInTwoCalls(s.core, c, b, now, tickRateHz);
    TailInTwoCalls(c, b);
  }

  /** The packets found in `x + y` are those found in `x` followed by those
      found in what `x`'s scan left over joined with `y`; both scans stop at
      the same byte. */
  lemma AcceptedSplit(x: seq<byte>, y: seq<byte>)
    ensures var t := ScanFrom(x, 0).exit;
      && t <= |x|
      && Accepted(x + y) == Accepted(x) + Accepted(x[t..] + y)
      && ScanFrom(x + y, 0).exit == ScanFrom(x[t..] + y, 0).exit + t
  {
    var r1 := ScanFrom(x, 0);
    var t := r1.exit;
    var x2 := x[t..] + y;
    var r2 := ScanFrom(x2, 0);
    assert ScanFrom(x + y, 0) == Scan(r1.offsets + Shifted(r2.offsets, t), r2.exit + t) by {
      ScanExtends(x, y, 0);
      ScanShift(x + y, t, t);
      assert (x + y)[t..] == x2;
    }
    ScanWellSpaced(x, 0);
    ScanWellSpaced(x2, 0);
    assert (x + y)[t..] == x2;
    WindowsPrefix(x, y, r1.offsets);
    WindowsShifted(x + y, t, r2.offsets);
    WindowsAppend(x + y, r1.offsets, Shifted(r2.offsets, t));
  }

  // ---------------------------------------------------------------------
  // A packet split across two reads after noise
  // ---------------------------------------------------------------------

  /** A packet-sized run of bytes that never starts a header. */
  function Noise(): seq<byte> { seq(PACKET_SIZE, _ => 1) }

  /** A valid packet with sequence number 0 and an all-zero body. */
  function Sample(): seq<byte> { [HEADER_0, HEADER_1, 0, 0] + seq(PACKET_SIZE - 4, _ => 0) }

  /** Offsets holding no header byte are skipped without accepting anything. */
  lemma {:induction false} ScanSkipsNoise(buf: seq<byte>, i: nat, e: nat)
    requires i <= e && e + PACKET_SIZE <= |buf| + 1
    requires forall j :: i <= j < e ==> buf[j] != HEADER_0
    decreases e - i
    ensures ScanFrom(buf, i) == ScanFrom(buf, e)
  {
    if i < e {
      ScanSkipsNoise(buf, i + 1, e);
    }
  }

  /** The noise and the first ten bytes of the packet: nothing is accepted,
      and the scan stops after the packet start. */
  lemma NoiseThenPacketStart()
    ensures var first := Noise() + Sample()[..10];
      ScanFrom(first, 0) == Scan([], 11) && Processed(ScanFrom(first, 0)) == 0
  {
    var first := Noise() + Sample()[..10];
    ScanSkipsNoise(first, 0, 11);
  }

  /** The noise and the whole packet: exactly the packet is accepted. */
  lemma NoiseThenPacket()
    ensures |ScanFrom(Noise() + Sample(), 0).offsets| == 1
  {
    var whole := Noise() + Sample();
    ScanSkipsNoise(whole, 0, PACKET_SIZE);
    assert whole[PACKET_SIZE..2 * PACKET_SIZE] == Sample();
    assert AcceptAt(whole, PACKET_SIZE);
    assert ScanFrom(whole, 2 * PACKET_SIZE) == Scan([], 2 * PACKET_SIZE);
  }

  /** Fewer bytes than a packet are never accepted. */
  lemma ShortScan(buf: seq<byte>)
    requires |buf| < PACKET_SIZE
    ensures ScanFrom(buf, 0) == Scan([], 0) && Accepted(buf) == []
  {
  }

  /** Written as it is, `lidar_analyze_data` loses a packet that arrives split
      across two reads when a packet's worth of noise precedes it in the first
      read: the first call drops the whole unscanned tail, packet start
      included. Read in one piece, or with the tail kept, the packet is found. */
  lemma SplitPacketLost(s: State, now: u32, tickRateHz: nat)
    requires Inv(s) && s.pending == []
    ensures var first := Noise() + Sample()[..10];
      var second := Sample()[10..];
      var detected := s.core.tracker.packetsDetected;
      && AnalyzeSpec(AnalyzeSpec(s, first, now, tickRateHz), second, now, tickRateHz).core.tracker.packetsDetected == detected
      && AnalyzeSpec(s, first + second, now, tickRateHz).core.tracker.packetsDetected == detected + 1
      && AnalyzeFixed(AnalyzeFixed(s, first, now, tickRateHz), second, now, tickRateHz).core.tracker.packetsDetected == detected + 1
  {
    var first := Noise() + Sample()[..10];
    var second := Sample()[10..];
    var whole := first + second;
    assert s.pending + first == first;
    NoiseThenPacketStart();
    var s1 := AnalyzeSpec(s, first, now, tickRateHz);
    assert s1.pending == [] && s1.core == s.core;
    assert s1.pending + second == second;
    ShortScan(second);
    assert whole == Noise() + Sample();
    assert s.pending + whole == whole;
    NoiseThenPacket();
    FixedChunkingInvariant(s, first, second, now, tickRateHz);
  }

  // ---------------------------------------------------------------------
  // The file's static state, updated in place
  // ---------------------------------------------------------------------

  /** The static `uart_stats` and `tcp_send_queue` of main/lidar_packet.c. */
  class PacketPipeline {
    var totalBytesReceived: nat
    var packetsDetected: nat
    var packetsLost: nat
    var sequenceErrors: nat
    var lastSequence: nat
    var firstPacket: bool
    const pendingBuffer: array<byte>
    var pendingLen: nat
    const packetCache: array<Slot>
    var cacheReceivedMask: bv32
    var batchesSent: nat
    var incompleteBatches: nat
    var queueCreated: bool
    var queue: seq<BatchItem>
    /** `configTICK_RATE_HZ`, which `pdMS_TO_TICKS` depends on. */
    const tickRateHz: nat

    ghost predicate Valid()
      reads this, packetCache
    {
      && pendingBuffer.Length == PACKET_SIZE && pendingLen < PACKET_SIZE
      && packetCache.Length == BATCH_SIZE
      && (forall i :: 0 <= i < BATCH_SIZE ==> |packetCache[i].packet| == PACKET_SIZE)
    }

    ghost function BatchState(): Batcher
      reads this, packetCache
    {
      Batcher(packetCache[..], cacheReceivedMask, batchesSent, incompleteBatches, queueCreated, queue)
    }

    ghost function CoreState(): Core
      reads this, packetCache
    {
      Core(Tracker(packetsDetected, packetsLost, sequenceErrors, lastSequence, firstPacket), BatchState())
    }

    ghost function Snapshot(): State
      reads this, pendingBuffer, packetCache
      requires Valid()
    {
      State(totalBytesReceived, pendingBuffer[..pendingLen], CoreState())
    }

    /** `lidar_packet_init` on the zero-initialised statics; `created` is
        whether `xQueueCreate` succeeded. */
    constructor (tickRateHz: nat, created: bool)
      ensures Valid() && Snapshot() == Initial(created) && this.tickRateHz == tickRateHz
    {
      this.tickRateHz := tickRateHz;
      pendingBuffer := new byte[PACKET_SIZE](_ => 0);
      packetCache := new Slot[BATCH_SIZE](_ => Slot(seq(PACKET_SIZE, _ => 0), false, 0));
      totalBytesReceived, packetsDetected, packetsLost, sequenceErrors := 0, 0, 0, 0;
      lastSequence, firstPacket, pendingLen := 0, false, 0;
      cacheReceivedMask, batchesSent, incompleteBatches := 0, 0, 0;
      queueCreated, queue := false, [];
      new;
      ResetStats();
      queueCreated := created;
      assert packetCache[..] == seq(BATCH_SIZE, _ => Slot(seq(PACKET_SIZE, _ => 0), false, 0));
    }

    /** Mark every slot not received and clear the mask. */
    method ClearCache()
      requires Valid()
      modifies this`cacheReceivedMask, packetCache
      ensures Valid()
      ensures BatchState() == EmptyCache(old(BatchState()))
    {
      cacheReceivedMask := 0;
      for i := 0 to BATCH_SIZE
        invariant cacheReceivedMask == 0
        invariant forall j :: 0 <= j < i ==> packetCache[j] == old(packetCache[j]).(received := false)
        invariant forall j :: i <= j < BATCH_SIZE ==> packetCache[j] == old(packetCache[j])
      {
        packetCache[i] := packetCache[i].(received := false);
      }
      assert packetCache[..] == ClearedSlots(old(packetCache[..]));
    }

    /** The counter assignments of `lidar_reset_stats`. */
    method ResetCounters()
      modifies this`totalBytesReceived, this`packetsDetected, this`packetsLost, this`sequenceErrors,
               this`lastSequence, this`firstPacket, this`pendingLen, this`batchesSent, this`incompleteBatches
      ensures TrackerState() == Tracker(0, 0, 0, 0, true)
      ensures totalBytesReceived == 0 && pendingLen == 0 && batchesSent == 0 && incompleteBatches == 0
    {
      totalBytesReceived := 0;
      packetsDetected := 0;
      packetsLost := 0;
      sequenceErrors := 0;
      lastSequence := 0;
      firstPacket := true;
      pendingLen := 0;
      batchesSent := 0;
      incompleteBatches := 0;
    }

    /** `lidar_reset_stats`. */
    method ResetStats()
      requires Valid()
      modifies this`totalBytesReceived, this`packetsDetected, this`packetsLost, this`sequenceErrors,
               this`lastSequence, this`firstPacket, this`pendingLen, this`cacheReceivedMask,
               this`batchesSent, this`incompleteBatches, packetCache
      ensures Valid() && Snapshot() == ResetSpec(old(Snapshot()))
    {
      ResetCounters();
      ghost var b0 := BatchState();
      ClearCache();
      assert BatchState() == EmptyCache(b0);
      assert pendingBuffer[..pendingLen] == [];
    }

    /** `lidar_cache_packet`. */
    method CachePacket(p: seq<byte>, now: u32)
      requires Valid() && |p| == PACKET_SIZE
      modifies this`cacheReceivedMask, packetCache
      ensures Valid()
      ensures BatchState() == CacheSpec(old(BatchState()), p, now)
    {
      var sq := Sequence(p);
      if sq >= BATCH_SIZE {
        return;
      }
      packetCache[sq] := Slot(p, true, now);
      cacheReceivedMask := cacheReceivedMask | Bit(sq);
    }

    /** The copy loop of `lidar_check_and_send_batch`: slot `i` goes to
        bytes `i * 352 .. (i + 1) * 352` of a fresh batch buffer. */
    method CopyBatch() returns (data: seq<byte>)
      requires Valid()
      ensures data == JoinedSlots(packetCache[..], BATCH_SIZE)
    {
      var batchData := new byte[BATCH_SIZE * PACKET_SIZE];
      for i := 0 to BATCH_SIZE
        invariant batchData[..i * PACKET_SIZE] == JoinedSlots(packetCache[..], i)
        modifies batchData
      {
        Memcpy(batchData, i * PACKET_SIZE, packetCache[i].packet);
        assert batchData[..(i + 1) * PACKET_SIZE] == batchData[..i * PACKET_SIZE] + packetCache[i].packet;
      }
      assert batchData[..] == batchData[..BATCH_SIZE * PACKET_SIZE];
      data := batchData[..];
    }

    /** The search loop of `lidar_check_and_send_batch` for the oldest
        timestamp among received slots (`UINT32_MAX` when there is none). */
    method OldestTimestamp() returns (oldest: u32)
      requires Valid()
      ensures oldest == Oldest(packetCache[..], 0, UINT32_MAX)
    {
      oldest := UINT32_MAX;
      for i := 0 to BATCH_SIZE
        invariant Oldest(packetCache[..], i, oldest) == Oldest(packetCache[..], 0, UINT32_MAX)
      {
        if packetCache[i].received && packetCache[i].timestamp < oldest {
          oldest := packetCache[i].timestamp;
        }
      }
    }

    /** `lidar_check_and_send_batch` at tick `now`. */
    method CheckAndSendBatch(now: u32)
      requires Valid()
      modifies this`cacheReceivedMask, this`batchesSent, this`incompleteBatches, this`queue, packetCache
      ensures Valid()
      ensures BatchState() == CheckSpec(old(BatchState()), now, tickRateHz)
    {
      if cacheReceivedMask == FULL_MASK {
        var data := CopyBatch();
        var item := BatchItem(data, now, 0xFF);
        if queueCreated {
          if |queue| < QUEUE_SIZE {
            queue := queue + [item];
            batchesSent := batchesSent + 1;
          }
        }
        ClearCache();
      } else if cacheReceivedMask != 0 {
        var oldest := OldestTimestamp();
        if oldest != UINT32_MAX && Sub32(now, oldest) > MsToTicks(BATCH_TIMEOUT_MS, tickRateHz) {
          incompleteBatches := incompleteBatches + 1;
          ClearCache();
        }
      }
    }

    /** The tail of `process_valid_packet` for a packet it keeps: record its
        sequence number, cache it and check the batch. */
    method AcceptPacket(p: seq<byte>, now: u32)
      requires Valid() && |p| == PACKET_SIZE
      modifies this`lastSequence, this`cacheReceivedMask, this`batchesSent, this`incompleteBatches,
               this`queue, packetCache
      ensures Valid()
      ensures CoreState() == Accept(old(CoreState()).tracker, old(BatchState()), p, now, tickRateHz)
    {
      lastSequence := Sequence(p);
      CachePacket(p, now);
      CheckAndSendBatch(now);
    }

    ghost function TrackerState(): Tracker
      reads this
    {
      Tracker(packetsDetected, packetsLost, sequenceErrors, lastSequence, firstPacket)
    }

    /** The sequence checks of `process_valid_packet`, up to its two early
        returns; `keep` is false when it returns early. */
    method TrackSequence(p: seq<byte>) returns (keep: bool)
      requires |p| == PACKET_SIZE
      modifies this`packetsDetected, this`packetsLost, this`sequenceErrors, this`firstPacket
      ensures (TrackerState(), keep) == Track(old(TrackerState()), p)
    {
      packetsDetected := packetsDetected + 1;
      var sq := Sequence(p);
      if !firstPacket {
        var expected := (lastSequence + 1) % 8;
        if sq != expected {
          sequenceErrors := sequenceErrors + 1;
          var lost: int;
          if sq >= expected {
            lost := sq - expected;
          } else {
            lost := (8 - expected) + sq;
          }
          if 0 < lost <= 4 {
            packetsLost := packetsLost + lost;
          } else if lost == 0 {
            return false;
          } else {
            firstPacket := true;
            return false;
          }
        }
      } else {
        firstPacket := false;
      }
      return true;
    }

    /** `process_valid_packet`; the byte position it only logs is left out. */
    method ProcessValidPacket(p: seq<byte>, now: u32)
      requires Valid() && |p| == PACKET_SIZE && ValidatePacket(p)
      modifies this`packetsDetected, this`packetsLost, this`sequenceErrors, this`lastSequence,
               this`firstPacket, this`cacheReceivedMask, this`batchesSent, this`incompleteBatches,
               this`queue, packetCache
      ensures Valid()
      ensures CoreState() == ProcessValidSpec(old(CoreState()), p, now, tickRateHz)
    {
      var keep := TrackSequence(p);
      if keep {
        AcceptPacket(p, now);
      }
    }

    /** `process_valid_packet` on the next accepted packet, seen as one more
        step of processing the packets accepted so far. */
    method ProcessNext(ghost c0: Core, ghost done: seq<seq<byte>>, packet: seq<byte>, now: u32)
      requires Valid() && |c0.batcher.cache| == BATCH_SIZE && AllValid(done)
      requires |packet| == PACKET_SIZE && ValidatePacket(packet)
      requires CoreState() == ProcessAll(c0, done, now, tickRateHz)
      modifies this`packetsDetected, this`packetsLost, this`sequenceErrors, this`lastSequence,
               this`firstPacket, this`cacheReceivedMask, this`batchesSent, this`incompleteBatches,
               this`queue, packetCache
      ensures Valid() && AllValid(done + [packet])
      ensures CoreState() == ProcessAll(c0, done + [packet], now, tickRateHz)
    {
      ProcessValidPacket(packet, now);
      assert (done + [packet])[..|done|] == done;
    }

    /** The scan loop of `lidar_analyze_data` over the joined buffer: every
        accepted packet is processed in order; `processed` is returned. */
    method ProcessCombined(combined: seq<byte>, now: u32) returns (processed: nat)
      requires Valid()
      modifies this`packetsDetected, this`packetsLost, this`sequenceErrors, this`lastSequence,
               this`firstPacket, this`cacheReceivedMask, this`batchesSent, this`incompleteBatches,
               this`queue, packetCache
      ensures Valid()
      ensures CoreState() == ProcessAll(old(CoreState()), Accepted(combined), now, tickRateHz)
      ensures processed == Processed(ScanFrom(combined, 0))
    {
      ghost var c0 := CoreState();
      processed := 0;
      var i := 0;
      ghost var done: seq<seq<byte>> := [];
      while i + PACKET_SIZE <= |combined|
        invariant Valid()
        invariant ScanLoopInv(combined, done, i, processed)
        invariant CoreState() == ProcessAll(c0, done, now, tickRateHz)
        decreases |combined| - i
      {
        if combined[i] == HEADER_0 && combined[i + 1] == HEADER_1 && ValidatePacket(combined[i..i + PACKET_SIZE]) {
          var packet := combined[i..i + PACKET_SIZE];
          ScanLoopAccept(combined, done, i, processed);
          ProcessNext(c0, done, packet, now);
          done := done + [packet];
          i := i + PACKET_SIZE;
          processed := i;
        } else {
          ScanSkipStep(combined, i);
          i := i + 1;
        }
      }
      assert done + AcceptedFrom(combined, i) == done;
    }

    /** The end of `lidar_analyze_data`: keep what follows the last accepted
        packet when it is shorter than a packet, otherwise keep nothing. */
    method SavePending(combined: seq<byte>, processed: nat)
      requires Valid() && processed <= |combined|
      modifies this`pendingLen, pendingBuffer
      ensures Valid() && pendingBuffer[..pendingLen] == AsWrittenPending(combined, processed)
    {
      var remaining := |combined| - processed;
      if 0 < remaining < PACKET_SIZE {
        pendingLen := remaining;
        Memcpy(pendingBuffer, 0, combined[processed..]);
        assert pendingBuffer[..pendingLen] == combined[processed..];
      } else {
        pendingLen := 0;
      }
    }

    /** `lidar_analyze_data(data, len)` at tick `now`. */
    method AnalyzeData(data: seq<byte>, now: u32)
      requires Valid()
      modifies this, pendingBuffer, packetCache
      ensures Valid()
      ensures Snapshot() == AnalyzeSpec(old(Snapshot()), data, now, tickRateHz)
    {
      totalBytesReceived := totalBytesReceived + |data|;
      var combined := pendingBuffer[..pendingLen] + data;
      var processed := ProcessCombined(combined, now);
      SavePending(combined, processed);
    }
  }
}
