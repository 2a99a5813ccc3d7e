# ESP32 LiDAR UART-to-TCP bridge: a verified model

The bridge reads a LiDAR sensor's byte stream from a UART on an ESP32 and
forwards it over TCP to a collecting server. The sensor emits fixed-size packets:
- a two-byte header `0A 00`;
- a sequence number in byte 2, running 0..7;
- a reserved byte 3 that must be zero;
- a payload.

Eight consecutive packets make one frame (the legacy path) or one batch (the
current path). The firmware frames the stream, checks the packets, counts
sequence errors and losses, and pushes complete frames and batches to a socket. A web
page lets the user set the Wi-Fi and server parameters. Python scripts on the
host side receive, check and count what the device sends.

This project models each source file as one Dafny module of the same
shape as the code, and proves properties of those modules:

- `LidarPacket` (`main/lidar_packet.c`) is the current firmware path.
  - `analyze_data` scans the carried-over bytes plus the new bytes for the
    header, validates windows and hands each valid packet to the sequence
    tracker.
  - The tracker counts lost packets and restarts on large gaps.
  - Packets go into an 8-slot cache with a received bitmask.
  - A full cache becomes one batch on a bounded FIFO queue. A partial cache
    older than 100 ms is dropped and counted.
  - The file's static state is the class `PacketPipeline`. Every method in
    it is proved against a function on values (`CacheSpec`, `CheckSpec`,
    `ProcessValidSpec`, `AnalyzeSpec`), and the lemmas are about those
    functions.
- `Dataproc` (`main/dataproc.c`) is the legacy path.
  - A byte-at-a-time framer (`UartToSockTask`) searches for the header,
    collects a packet and assembles frames in sequence order.
  - Completed frames go into a ring of buffered frames (`FrameBuffer`), which
    is flushed to the socket.
  - The ring's count of buffered frames is capped at the ring's size. The
    code as written lets it grow past the ring while no socket is open
    (`AsWrittenPush`, see Findings).
- `TcpClient` (`main/tcp_client.c`) models the shared socket handle
  (`Client`), the partial-write loop of `tcp_client_send_data` with its
  would-block back-off, and the compare-and-clear teardown.
- `UrlEncodedServer` (`main/webserver.c`) models URL decoding and the
  `application/x-www-form-urlencoded` parser of the configuration POST
  handler.
- `KeySearchServer` (`main/web_server.c`) models the other configuration handler,
  which cuts values out of the request with `strstr`.
- `DataServer` (`get_data_server.py`) is the fixed-stride frame receiver.
- `BatchServer` (`get_data_server_batch.py`) is the length-prefixed batch
  receiver.
- `BatchReceiver` (`get_data_batch_receiver.py`) is the fixed-size batch
  receiver.
- `BatchSender` (`test_batch_sender.py`) is the test batch generator.
- `HeaderScan` (`tools/cv2.py`) is the little-endian `uint32` header scanner.
- `HexDump` (`get_data.py`) is the hex dumper.
- `Bytes` and `CString` hold the byte and C-string primitives the firmware
  modules share: `memcpy`, `strncpy`, `strstr`, `atoi`, and 32-bit
  wrap-around.

Time, the socket's `send`/`recv` results, and `sscanf` on non-hex input enter
the model as parameters (`now`, a `send` oracle, a `scan` function). Every
property therefore holds for every behaviour of these collaborators.

## Model

| member | source | states |
|---|---|---|
| Bytes.LowNibble | main/lidar_packet.c:65 | the sequence field is the low four bits of byte 2, always below 16 |
| Bytes.Sub32 | main/lidar_packet.c:147 | tick differences are taken modulo 2^32, so a tick counter that wrapped still yields the elapsed time |
| Bytes.Memcpy | main/dataproc.c:199 | copying a packet into the frame at an offset writes exactly those bytes and leaves the rest of the destination unchanged |
| CString.UpToNul | main/web_server.c:199 | the C string read from a buffer is the longest prefix without NUL, followed by a NUL or the buffer's end |
| CString.FindFrom | main/web_server.c:202-207 | `strstr` returns the first position at or after the start where the needle occurs, or none exactly when it occurs nowhere there |
| CString.AtoiOfDecimal | main/webserver.c:301 | `atoi` reads back the decimal rendering of any natural number, whatever follows it |
| CString.ToU16 | main/webserver.c:301 | a cast to `uint16_t` keeps the value modulo 65536, and keeps it unchanged when it fits |
| CString.Bounded | main/web_server.c:232-234 | the string a bounded copy stores is a prefix of the source's C string of at most `n` characters, and the whole string when it fits |
| CString.StrNCopy | main/web_server.c:232-234 | the first `n` characters of the array are those of the source's C string, NUL past its end, and the rest of the array is unchanged |
| CString.StrNCopyView | main/web_server.c:232-234 | with a NUL at position `n`, the C string in the array is the bounded copy of the source |
| LidarPacket.Sequence | main/lidar_packet.c:65 | the sequence number read from a packet is below 16 |
| LidarPacket.ValidatePacket | main/lidar_packet.c:52-71 | an accepted packet has the header `0A 00`, a zero reserved byte and a sequence below 8 |
| LidarPacket.ValidateIgnoresHighNibble | main/lidar_packet.c:52-71 | acceptance holds exactly when the header and reserved byte match and the low nibble of byte 2 is at most 7, so the high nibble never matters |
| LidarPacket.BitsDistinct | main/lidar_packet.c:93 | the received bits of two slots overlap exactly when the slots are the same, and no bit lies outside the full mask |
| LidarPacket.SetBit | main/lidar_packet.c:93 | OR-ing a slot's bit into the mask adds that slot and keeps every other bit |
| LidarPacket.FullMaskIffAllReceived | main/lidar_packet.c:89-104 | under the cache invariant the mask is full exactly when all 8 slots are received, and zero exactly when none is |
| LidarPacket.ResetEstablishesInv | main/lidar_packet.c:32-50 | the initial state and the reset state satisfy the invariant, reset is idempotent, and reset leaves the queue alone |
| LidarPacket.CacheSpec | main/lidar_packet.c:74-96 | caching keeps 8 slots and never touches the queue |
| LidarPacket.CacheOnlyTouchesItsSlot | main/lidar_packet.c:74-96 | a packet with sequence 8 or more changes nothing; otherwise its slot holds the packet, marked received at `now`, its bit is set, the mask keeps all earlier bits, and every other slot and field is unchanged |
| LidarPacket.MarkReceived | main/lidar_packet.c:88-93 | receiving slot `j` and setting bit `j` keeps the mask in step with the received flags |
| LidarPacket.CachePreservesInv | main/lidar_packet.c:74-96 | caching any packet preserves the cache invariant |
| LidarPacket.QueueReceive | main/lidar_packet.c:291-330 | the consumer gets nothing exactly when the queue is empty |
| LidarPacket.QueueIsBoundedFifo | main/lidar_packet.c:117-129 | a send succeeds exactly when the queue exists and holds fewer than 100 batches, and then appends at the back; a rejected send leaves the queue as it was; the queue never exceeds its capacity |
| LidarPacket.JoinedSlotsLayout | main/lidar_packet.c:110-115 | the batch is `n` packets long, and packet `k` sits at offset `k * 352` |
| LidarPacket.OldestIsMinimum | main/lidar_packet.c:138-144 | the oldest timestamp is no later than any received slot's timestamp or the start value, and it is one of those timestamps unless it is the start value |
| LidarPacket.CheckSpec | main/lidar_packet.c:99-159 | a check keeps 8 slots, keeps the queue's existence, and adds at most one batch |
| LidarPacket.FullBatchInSequenceOrder | main/lidar_packet.c:104-135 | with a full mask, the queued batch is slots 0..7 in sequence order (8 × 352 bytes); the sent count rises only when the queue accepts it; the cache is emptied either way |
| LidarPacket.PartialBatchTimeout | main/lidar_packet.c:136-158 | with a partial mask, the cache is emptied and the incomplete count rises by one exactly when some received slot is stamped below `UINT32_MAX` (the code's "no packet" value) and the oldest stamp is more than 100 ms old in wrapping tick arithmetic; otherwise nothing changes |
| LidarPacket.EmptyCacheInv | main/lidar_packet.c:131-135 | clearing the cache preserves the invariant |
| LidarPacket.CheckPreservesInv | main/lidar_packet.c:99-159 | a batch check preserves the invariant |
| LidarPacket.LostCount | main/lidar_packet.c:174-179 | the loss count is in 0..7, is zero exactly when the sequence is the expected one, and the expected sequence plus the loss is the received one modulo 8 |
| LidarPacket.Accept | main/lidar_packet.c:202-206 | accepting a packet keeps 8 cache slots |
| LidarPacket.Track | main/lidar_packet.c:163-200 | every tracked packet raises the detected count, and a packet that is to be cached leaves the first-packet flag cleared |
| LidarPacket.ProcessValidSpec | main/lidar_packet.c:161-207 | processing a valid packet raises the detected count by one and keeps 8 slots |
| LidarPacket.SequenceAccounting | main/lidar_packet.c:163-206 | every packet raises the detected count; a mismatch raises the sequence-error count and has a loss of 1..7; a loss of 5..7 restarts tracking and does not cache the packet; otherwise the loss is added, the sequence recorded, and the packet cached and checked |
| LidarPacket.TimeoutDropsTriggeringPacket | main/lidar_packet.c:205-206 | if the batch check after caching finds a stale partial batch, the packet just cached is dropped with it |
| LidarPacket.ProcessValidPreservesInv | main/lidar_packet.c:161-207 | processing a valid packet preserves the tracker-and-cache invariant |
| LidarPacket.ScanFrom | main/lidar_packet.c:233-254 | the scan stops less than one packet before the end of the buffer, and the last accepted packet ends at or before that point |
| LidarPacket.ScanWellSpaced | main/lidar_packet.c:233-254 | accepted offsets are increasing, never overlap, and each one holds a valid packet |
| LidarPacket.ScanLastEnd | main/lidar_packet.c:233-254 | the processed position is the end of the last accepted packet, or 0 when none was accepted |
| LidarPacket.AcceptedWindowsValid | main/lidar_packet.c:241-251 | every window the scan hands on passes validation and starts with the header |
| LidarPacket.ProcessAllAppend | main/lidar_packet.c:247 | processing two runs of packets in turn is the same as processing their concatenation |
| LidarPacket.ProcessAllPreservesInv | main/lidar_packet.c:247 | processing any run of valid packets preserves the invariant |
| LidarPacket.ScanSkipStep | main/lidar_packet.c:241-253 | a window that fails validation moves the scan on by exactly one byte |
| LidarPacket.ScanAcceptStep | main/lidar_packet.c:241-251 | a valid window is accepted and the scan resumes one packet later |
| LidarPacket.AnalyzeSpec | main/lidar_packet.c:209-279 | one call adds the read length to the byte count and leaves less than a packet pending |
| LidarPacket.AnalyzeFraming | main/lidar_packet.c:209-263 | the packets processed are exactly the well-spaced valid windows of pending-plus-new bytes, in order; the pending bytes are the unprocessed tail when it is shorter than a packet, and empty otherwise; the invariant is kept |
| LidarPacket.ScanExtends | main/lidar_packet.c:233-254 | scanning a longer buffer agrees with scanning its prefix up to where that scan stopped |
| LidarPacket.ScanShift | main/lidar_packet.c:233-254 | scanning a suffix of the buffer finds the same packets at offsets shifted by the cut |
| LidarPacket.AnalyzeFixed | main/lidar_packet.c:256-263 | the corrected call (keep the unscanned tail) adds the read length and leaves less than a packet pending |
| LidarPacket.AsWrittenDiffersOnlyOnLongTail | main/lidar_packet.c:256-263 | the code as written and the corrected version process the same packets, and differ only when a packet's worth or more of bytes follows the last accepted packet: then the code keeps nothing and the correction keeps 351 bytes |
| LidarPacket.CoreInTwoCalls | main/lidar_packet.c:213-254 | scanning the kept tail together with the next read continues the scan of the joined bytes |
| LidarPacket.FixedChunkingInvariant | main/lidar_packet.c:209-263 | with the correction, two calls on `a` then `b` leave the same state as one call on `a + b` |
| LidarPacket.AcceptedSplit | main/lidar_packet.c:233-254 | the packets found in `a + b` are those found in `a` before its scan stopped, followed by those found from there on |
| LidarPacket.ScanSkipsNoise | main/lidar_packet.c:241-242 | bytes that cannot start a header are skipped one at a time without effect |
| LidarPacket.ShortScan | main/lidar_packet.c:233 | a buffer shorter than a packet yields no packet |
| LidarPacket.NoiseThenPacket | main/lidar_packet.c:233-254 | 352 noise bytes followed by a valid packet, read in one piece, yield exactly one packet |
| LidarPacket.SplitPacketLost | main/lidar_packet.c:256-263 | as written, the same bytes split after the packet's first 10 bytes detect nothing, while one read, or the corrected code over two reads, detects the packet |
| LidarPacket.PacketPipeline.constructor | main/lidar_packet.c:18-30 | the new state is the initial state: an empty cache, zero counters and a fresh queue |
| LidarPacket.PacketPipeline.ClearCache | main/lidar_packet.c:131-135 | the static cache is emptied as `EmptyCache` states |
| LidarPacket.PacketPipeline.ResetCounters | main/lidar_packet.c:32-46 | all counters and the tracker are zeroed, and tracking waits for a first packet |
| LidarPacket.PacketPipeline.ResetStats | main/lidar_packet.c:32-50 | the whole state becomes `ResetSpec` of the old state |
| LidarPacket.PacketPipeline.CachePacket | main/lidar_packet.c:74-96 | the cache arrays change as `CacheSpec` states |
| LidarPacket.PacketPipeline.CopyBatch | main/lidar_packet.c:110-115 | the batch buffer is the eight cached packets joined in slot order |
| LidarPacket.PacketPipeline.OldestTimestamp | main/lidar_packet.c:138-144 | the loop's result is the minimum received timestamp, or `UINT32_MAX` when none is received |
| LidarPacket.PacketPipeline.CheckAndSendBatch | main/lidar_packet.c:99-159 | the batch state changes as `CheckSpec` states |
| LidarPacket.PacketPipeline.TrackSequence | main/lidar_packet.c:163-200 | the tracker counters and the keep decision are those of `Track` |
| LidarPacket.PacketPipeline.AcceptPacket | main/lidar_packet.c:202-206 | recording the sequence, caching and checking has the effect `Accept` states |
| LidarPacket.PacketPipeline.ProcessValidPacket | main/lidar_packet.c:161-207 | the tracker and batch state change as `ProcessValidSpec` states |
| LidarPacket.PacketPipeline.ProcessNext | main/lidar_packet.c:247 | one more valid packet extends the processed run |
| LidarPacket.PacketPipeline.ProcessCombined | main/lidar_packet.c:229-254 | the scan loop processes exactly the accepted packets of the combined buffer, in order, and returns the processed position |
| LidarPacket.PacketPipeline.SavePending | main/lidar_packet.c:256-263 | the pending buffer holds the tail the code as written keeps |
| LidarPacket.PacketPipeline.AnalyzeData | main/lidar_packet.c:209-279 | the whole static state changes as `AnalyzeSpec` states |
| Dataproc.ValidateLidarPacket | main/dataproc.c:19-25 | an accepted packet is exactly one packet long, starts with the header `0A 00`, has byte 2 below 8 and a zero reserved byte |
| Dataproc.LegacyValidationIsStricter | main/dataproc.c:19-25 | for every packet size, the legacy check accepts exactly the packets of that length that the current check accepts with a zero high nibble in byte 2 |
| Dataproc.HighNibbleSplitsTheValidators | main/dataproc.c:22 | a packet with byte 2 = `0x13` passes the current check and fails the legacy one |
| Dataproc.ValidateFrame | main/dataproc.c:27-41 | a frame passes exactly when it is valid and slot `i` holds a valid packet with sequence `i`, for every `i` |
| Dataproc.InitialFramerInv | main/dataproc.c:104-119 | the framer starts searching, with an invalid zeroed frame, in a state satisfying its invariant |
| Dataproc.StartOnZero | main/dataproc.c:185-195 | a sequence-0 packet leaves a started, empty frame, and the frame stays well formed |
| Dataproc.Complete | main/dataproc.c:204-233 | the frame handed on passes frame validation, and the frame state stays well formed |
| Dataproc.Place | main/dataproc.c:197-249 | placing a packet keeps the framer invariant, and any frame it emits is valid |
| Dataproc.Assemble | main/dataproc.c:179-249 | assembling keeps the framer invariant, and any emitted frame is valid |
| Dataproc.HandlePacket | main/dataproc.c:167-255 | handling a full packet keeps the frame state well formed and emits only valid frames |
| Dataproc.Collect | main/dataproc.c:162-167 | collecting a byte keeps the invariant |
| Dataproc.ByteStep | main/dataproc.c:139-262 | one byte step keeps the framer invariant, and any frame it emits is valid |
| Dataproc.SequenceZeroStartsFrame | main/dataproc.c:185-201 | a valid sequence-0 packet discards a partial frame, counting it invalid, and starts a new frame holding just that packet |
| Dataproc.OutOfOrderPacketDiscardsFrame | main/dataproc.c:197-248 | in a started frame, a non-zero packet other than the expected one discards the frame and counts it invalid; with no frame started, a non-zero packet changes nothing |
| Dataproc.InOrderPacketExtendsFrame | main/dataproc.c:198-233 | the expected packet is stored in its slot; the last one emits the frame, counts it valid and resets the frame |
| Dataproc.CollectsExactlyOnePacket | main/dataproc.c:162-259 | after the header the framer appends bytes until it holds one packet, then counts exactly one packet, valid or invalid, and searches again |
| Dataproc.HeaderSearchResynchronises | main/dataproc.c:143-161 | the search finds the header exactly on `0A` followed by `00`; otherwise every byte of the failed match is counted as discarded, including a `0A` that is then kept as a new start |
| Dataproc.ByteStepScratchIsRecent | main/dataproc.c:139-162 | the bytes being collected are always a suffix of the bytes read so far |
| Dataproc.EmptyRingInv | main/dataproc.c:97-102 | the initialised ring satisfies the ring invariant |
| Dataproc.SendOneOutcome | main/dataproc.c:68-76 | the write loop either sent the whole frame with positive results only, or stopped at the first non-positive result short of the frame |
| Dataproc.FrameSentIff | main/dataproc.c:68-84 | a frame counts as sent exactly when every write result was positive and the total reached the frame size |
| Dataproc.SendFramesBounds | main/dataproc.c:61-88 | the frames counted as sent are at most the valid frames, which are at most the buffered count; with a socket that always takes a whole frame, exactly the valid frames count |
| Dataproc.FlushSpec | main/dataproc.c:43-95 | with no socket nothing changes; otherwise the buffered count is reset to 0 and the frames are left in place |
| Dataproc.PushSpec | main/dataproc.c:212-225 | CORRECTED push (see Findings): the frame is stored at the write index, the index advances modulo the capacity, and the ring invariant is kept, including a count that never exceeds the capacity, which line 215 as written does not ensure |
| Dataproc.AsWrittenOfflineOverrun | main/dataproc.c:215-222 | as written, with no socket, `n` completed frames raise the buffered count by `n` and send nothing; once the count reaches `C`, the next frame completed with a socket makes the flush read past the `C`-slot ring |
| Dataproc.AsWrittenPush | main/dataproc.c:212-225 | as written, the count rises by one on every frame; with no socket it is not reset, and with one the flush reads past the ring exactly when `C` or more frames were already buffered |
| Dataproc.AsWrittenDiffersOnlyWhenFull | main/dataproc.c:212-225 | below `C` buffered frames the code as written and the corrected push agree; at `C`, as written, a socket makes the flush overrun and no socket takes the count to `C + 1`, while the corrected push stays within the ring |
| Dataproc.OfflinePushesSaturate | main/dataproc.c:212-225 | with the corrected push, `n` offline pushes leave `min(buffered + n, capacity)` and send nothing |
| Dataproc.Deliver | main/dataproc.c:212-225 | delivering a frame through the corrected push keeps the ring invariant, so the buffered count stays within the ring |
| Dataproc.TaskStep | main/dataproc.c:139-262 | a byte step of the UART task keeps the framer invariant, and, with the corrected push, the ring invariant |
| Dataproc.Feed | main/dataproc.c:123-262 | feeding a read keeps the framer invariant, and, with the corrected push, the ring invariant |
| Dataproc.FeedAppend | main/dataproc.c:123-139 | feeding two reads in turn equals feeding their concatenation |
| Dataproc.FeedScratchIsRecent | main/dataproc.c:139-262 | after any input, the bytes being collected are a suffix of all bytes read |
| Dataproc.FrameBuffer.constructor | main/dataproc.c:97-102 | the ring starts empty with write index 0 |
| Dataproc.FrameBuffer.SendFrame | main/dataproc.c:64-76 | one frame's write loop returns what `SendOne` states |
| Dataproc.FrameBuffer.SendBufferedFrames | main/dataproc.c:43-95 | the ring changes as `FlushSpec` states |
| Dataproc.FrameBuffer.Push | main/dataproc.c:212-225 | the ring changes as the corrected `PushSpec` states: the count saturates at the capacity, where line 215 increments it unconditionally |
| Dataproc.UartToSockTask.constructor | main/dataproc.c:106-119 | the UART task starts in the initial framer state |
| Dataproc.UartToSockTask.SearchHeader | main/dataproc.c:143-161 | the header search step changes the state as `SearchStep` states |
| Dataproc.UartToSockTask.BeginFrameOnZero | main/dataproc.c:185-195 | the frame arrays become `StartOnZero` |
| Dataproc.UartToSockTask.FinishFrame | main/dataproc.c:204-233 | completion resets the frame and delivers it to the ring through the corrected push |
| Dataproc.UartToSockTask.PlacePacket | main/dataproc.c:197-249 | the frame changes as `Place` states |
| Dataproc.UartToSockTask.AssemblePacket | main/dataproc.c:185-249 | the frame changes as `Assemble` states |
| Dataproc.UartToSockTask.HandleFullPacket | main/dataproc.c:168-255 | the state changes as `HandlePacket` states |
| Dataproc.UartToSockTask.StoreByte | main/dataproc.c:162-164 | the byte is stored at the packet index and the index advances |
| Dataproc.UartToSockTask.ConsumePacket | main/dataproc.c:165-259 | a full packet is handled and the framer goes back to searching |
| Dataproc.UartToSockTask.CollectByte | main/dataproc.c:162-259 | the state changes as `Collect` states |
| Dataproc.UartToSockTask.ProcessByte | main/dataproc.c:139-262 | the state changes as `TaskStep` states, with the corrected push |
| Dataproc.UartToSockTask.OnRead | main/dataproc.c:124-262 | a read changes the state as `Feed` states, with the corrected push, and the byte count grows by the read length |
| TcpClient.RampSum | main/tcp_client.c:63-76 | the delays of any stretch of the back-off ramp add up to the difference of the waiting totals at its ends |
| TcpClient.GiveUpBackOff | main/tcp_client.c:53-76 | the full back-off ramp has 100 delays, which add up to 719 ms |
| TcpClient.Loop | main/tcp_client.c:56-89 | the total sent never decreases or exceeds the length; the loop ends complete exactly when everything was sent; the retry count stays within 100 |
| TcpClient.LoopProgress | main/tcp_client.c:58-60 | a positive result adds that many bytes and resets the retry count |
| TcpClient.LoopRetry | main/tcp_client.c:63-76 | a would-block result waits the ramp's delay and counts one more retry |
| TcpClient.LoopFail | main/tcp_client.c:77-87 | an error other than would-block, or a 0 result in the corrected loop, ends the attempt as fatal without adding bytes |
| TcpClient.LoopEnds | main/tcp_client.c:56-89 | an attempt that gives up has used all 100 retries, and a fatal one ended on an error or a 0 result |
| TcpClient.LoopBudget | main/tcp_client.c:56-89 | the number of send calls is bounded by a budget in the bytes still to send and the retries left, so the corrected loop always ends |
| TcpClient.GiveUpFollowsWouldBlocks | main/tcp_client.c:56-76 | an attempt gives up only after its last 100 send calls all returned would-block |
| TcpClient.GiveUpWaits | main/tcp_client.c:63-76 | a loop that gives up has ended on the full 1, 5, 10 ms back-off ramp |
| TcpClient.GiveUpCosts719ms | main/tcp_client.c:53-76 | the last 100 delays of an attempt that gives up add up to 719 ms |
| TcpClient.ZeroResultsNeverEnd | main/tcp_client.c:56-89 | as written, a socket that keeps returning 0 never ends the loop, whatever the fuel |
| TcpClient.ZeroResultIsFatal | main/tcp_client.c:56-89 | with the correction, a 0 result ends the attempt as fatal |
| TcpClient.AsWrittenAgreesWithoutZero | main/tcp_client.c:56-89 | on sockets that never return 0, the code as written and the corrected loop agree |
| TcpClient.ClearIfCurrent | main/tcp_client.c:80-85 | the handle is set to -1 and the descriptor closed only when the handle still equals the snapshot; otherwise nothing changes |
| TcpClient.Teardown | main/tcp_client.c:219-222 | the receiver always closes its socket, and clears the handle only when it still holds that socket |
| TcpClient.SendSpec | main/tcp_client.c:35-99 | with the corrected loop: with no socket the data is dropped and counted; otherwise the wire gets a prefix of the data, and the incomplete count rises exactly when it got less than all of it |
| TcpClient.IncompleteIffNotComplete | main/tcp_client.c:91-98 | the incomplete count rises exactly when the loop does not end complete |
| TcpClient.ClearedAtMostOncePerConnect | main/tcp_client.c:80-85 | over any sequence of connects and compare-and-clears, the live handle is cleared at most once per connect, plus once for a handle live at the start |
| TcpClient.StaleSnapshotsClearNothing | main/tcp_client.c:80-85 | a compare-and-clear holding a snapshot that is no longer current changes nothing |
| TcpClient.DescriptorClosedTwice | main/tcp_client.c:219-222 | when a sender's compare-and-clear and the receiver's teardown both act on the live socket, the descriptor is closed twice, though the handle is cleared only once |
| TcpClient.WriteLoop | main/tcp_client.c:50-89 | with the corrected loop: the imperative loop's totals, exit and delays are those of `Loop` |
| TcpClient.Client.constructor | main/tcp_client.c:17 | the handle starts at -1 with no traffic |
| TcpClient.Client.IsConnected | main/tcp_client.c:101-107 | the client is connected exactly when the handle is non-negative |
| TcpClient.Client.Attach | main/tcp_client.c:190-192 | a successful connect installs the new socket as the handle |
| TcpClient.Client.ClearIfStill | main/tcp_client.c:80-85 | the handle changes as `ClearIfCurrent` states |
| TcpClient.Client.TeardownReceiver | main/tcp_client.c:219-222 | the handle changes as `Teardown` states |
| TcpClient.Client.SendData | main/tcp_client.c:35-99 | with the corrected loop: the connection state changes as `SendSpec` states |
| UrlEncodedServer.HexDigitValue | main/webserver.c:202 | a hex digit's value is below 16 |
| UrlEncodedServer.Decode | main/webserver.c:195-214 | the decoded text never exceeds the room in the destination |
| UrlEncodedServer.UrlDecode | main/webserver.c:195-214 | the destination holds the decoded text followed by a NUL, and nothing after it changes |
| UrlEncodedServer.DecodeOne | main/webserver.c:198-211 | one loop step consumes one to three source characters and emits one character |
| UrlEncodedServer.DecodeStep | main/webserver.c:198-211 | the decoding of the rest continues the decoding so far |
| UrlEncodedServer.LiteralDecodesToPrefix | main/webserver.c:195-214 | text without `%` and `+` decodes to itself, cut to the room |
| UrlEncodedServer.EncodeChar | main/webserver.c:58-89 | an encoded character is non-empty and contains neither NUL nor `&` |
| UrlEncodedServer.UrlEncode | main/webserver.c:58-89 | a browser-encoded value contains neither NUL nor `&` |
| UrlEncodedServer.DecodeEncodeChar | main/webserver.c:199-211 | decoding undoes the encoding of one character |
| UrlEncodedServer.DecodeUrlEncode | main/webserver.c:195-214 | decoding the form encoding of any byte string gives back the string, cut to the room |
| UrlEncodedServer.TokenEnd | main/webserver.c:292-305 | a token ends at the first `&`, or at the end of the text |
| UrlEncodedServer.Tokens | main/webserver.c:292-305 | the tokens are non-empty and contain no `&` |
| UrlEncodedServer.TokensStep | main/webserver.c:292-305 | tokenising splits off the text up to the next `&`, then goes on with the rest |
| UrlEncodedServer.DecodeField | main/webserver.c:295-299 | a decoded field is shorter than its buffer and contains no NUL |
| UrlEncodedServer.ApplyTokenAssigns | main/webserver.c:294-304 | a token changes exactly the field its key names, and every other field stays as it was |
| UrlEncodedServer.UnnamedFieldKept | main/webserver.c:284-306 | a field no token names keeps its default |
| UrlEncodedServer.LastOccurrenceWins | main/webserver.c:292-306 | when a key occurs several times, the last occurrence sets the field |
| UrlEncodedServer.KeyOfKeyName | main/webserver.c:294-303 | the parser recognises each field's key |
| UrlEncodedServer.ParseOneToken | main/webserver.c:292-306 | a body that is one token applies just that token to the defaults |
| UrlEncodedServer.PortWrapsAround | main/webserver.c:301 | a `server_port` of `n` is stored as `n mod 65536` |
| UrlEncodedServer.SoftapIffNonzero | main/webserver.c:303 | soft-AP is enabled exactly when `atoi` of the value is non-zero |
| UrlEncodedServer.FormValue | main/webserver.c:58-89 | the value the page submits for a field contains neither NUL nor `&` |
| UrlEncodedServer.TokensOfJoin | main/webserver.c:292-305 | tokenising the `&`-join of non-empty `&`-free tokens gives them back |
| UrlEncodedServer.FieldRoundTrip | main/webserver.c:295-299 | decoding a browser-encoded value that fits the field gives the value back |
| UrlEncodedServer.FormTokenAssigns | main/webserver.c:294-303 | the token the page sends for a field sets that field to its configured value |
| UrlEncodedServer.FormRoundTrip | main/webserver.c:280-306 | parsing the body the page submits for any enterable configuration yields that configuration |
| UrlEncodedServer.ConfigBuffer.constructor | main/webserver.c:280-289 | the fields start as the defaults |
| UrlEncodedServer.ConfigBuffer.DecodeInto | main/webserver.c:195-214 | the string in the field buffer is `DecodeField` of the value |
| UrlEncodedServer.ConfigBuffer.Apply | main/webserver.c:293-304 | the fields change as `ApplyToken` states |
| UrlEncodedServer.ConfigPost | main/webserver.c:259-306 | the handler yields `PostSpec`: nothing on a failed or empty receive, otherwise the parsed form |
| KeySearchServer.ValueEnd | main/web_server.c:211-213 | a value ends at the first `&` after its start, or at the end of the text |
| KeySearchServer.ValueStart | main/web_server.c:202-206 | a value starts right after an occurrence of its key |
| KeySearchServer.Stored | main/web_server.c:232-237 | stored strings are shorter than 32, 64 and 16 characters |
| KeySearchServer.SaveSpec | main/web_server.c:190-248 | a request that is not saved leaves the configuration unchanged, and a saved one stores strings shorter than their fields |
| KeySearchServer.SavedIffAllKeys | main/web_server.c:202-209 | the request is saved exactly when `ssid=`, `password=`, `server_ip=`, `server_port=` and `uart_baud=` all occur in the body |
| KeySearchServer.FoundIffOccurs | main/web_server.c:202-207 | `strstr` finds a key exactly when the key occurs in the body |
| KeySearchServer.KeyValueExtends | main/web_server.c:202-229 | appending `&` and anything to the body leaves an existing key's value unchanged |
| KeySearchServer.ExtractWithCheckBox | main/web_server.c:207-237 | appending the soft-AP key with any value to a complete body turns soft-AP on and changes no other field |
| KeySearchServer.SoftapOnByPresence | main/web_server.c:207-237 | soft-AP is stored as on whenever its key is present, whatever its value |
| KeySearchServer.CutValueReads | main/web_server.c:211-229 | cutting the `&` after a value makes the C string at its start exactly the value |
| KeySearchServer.CutValue | main/web_server.c:212-213 | the `&` that ends the value becomes NUL, nothing else changes, and the buffer still agrees with the body |
| KeySearchServer.ParseRequest | main/web_server.c:193-229 | the handler's cuts yield `Extract` of the received C string |
| KeySearchServer.ExtractByStarts | main/web_server.c:202-229 | the request is accepted exactly when all five keys are found; each field is then the value at its key, and soft-AP reflects the presence of its key |
| KeySearchServer.LoadBuffer | main/web_server.c:193-199 | the buffer holds the received bytes followed by a NUL |
| KeySearchServer.CutAll | main/web_server.c:211-229 | after the cuts, the end of each of the five values is NUL and the buffer still agrees with the body |
| KeySearchServer.ReadValues | main/web_server.c:211-236 | the strings read at the five start positions are exactly the body's values |
| KeySearchServer.ConfigStore.constructor | main/config.c:8 | the static configuration starts zeroed: empty strings, port and baud rate 0, soft-AP off |
| KeySearchServer.ConfigStore.CopyInto | main/web_server.c:232-234 | the field ends in NUL and holds the value truncated to its size minus one |
| KeySearchServer.ConfigStore.Store | main/web_server.c:232-237 | the fields hold `Stored` of the request |
| KeySearchServer.ConfigStore.Save | main/web_server.c:190-248 | the configuration and the saved flag are those of `SaveSpec` |
| DataServer.ValidatePacket | get_data_server.py:77-98 | a packet is decoded exactly when it is well formed, and then the decoded fields encode back to the same bytes |
| DataServer.ValidateFrame | get_data_server.py:100-109 | a frame passes exactly when it holds 8 packets and packet `i` carries sequence `i` |
| DataServer.DrainLeftover | get_data_server.py:117-121 | after draining, fewer than 44 bytes remain, they are a suffix of the buffer, and every 44-byte stride cut off was counted |
| DataServer.ConsumeCounts | get_data_server.py:117-128 | each 44-byte stride counts one packet, valid or not |
| DataServer.AssembleCases | get_data_server.py:133-150 | sequence 0 starts a new frame, counting an abandoned partial frame as invalid; the expected sequence extends the frame; the eighth packet completes a frame that is always valid; any other sequence counts an invalid frame and clears it, so the sequence-0 restart in `_handle_sequence_error` is never reached |
| DataServer.AssembleKeepsInv | get_data_server.py:133-185 | assembling keeps the frame buffer well formed |
| DataServer.DrainExtends | get_data_server.py:114-121 | draining more bytes continues from where the shorter drain stopped |
| DataServer.ChunkingIndependent | get_data_server.py:111-150 | processing `x` then `y` equals processing `x + y` |
| DataServer.DataSpecCounts | get_data_server.py:113-121 | the leftover is below 44 bytes, and the packet count rises by the number of whole 44-byte strides in the old leftover plus the new data |
| DataServer.DataSpecKeepsInv | get_data_server.py:111-150 | processing data keeps the processor's invariant |
| DataServer.LidarDataProcessor.constructor | get_data_server.py:66-75 | the processor starts empty with zero counts |
| DataServer.LidarDataProcessor.HandleCompleteFrame | get_data_server.py:152-166 | a valid frame is counted and the frame buffer reset |
| DataServer.LidarDataProcessor.HandleIncompleteFrame | get_data_server.py:168-172 | an incomplete frame is counted and the buffer reset |
| DataServer.LidarDataProcessor.HandleSequenceError | get_data_server.py:174-185 | an error is counted, and a sequence-0 packet starts a new frame |
| DataServer.LidarDataProcessor.AssemblePacket | get_data_server.py:133-150 | the state changes as `Assemble` states |
| DataServer.LidarDataProcessor.ConsumePacket | get_data_server.py:118-150 | the state changes as `Consume` states |
| DataServer.LidarDataProcessor.ProcessData | get_data_server.py:111-150 | the state changes as `DataSpec` states |
| BatchServer.BigEndian32 | get_data_server_batch.py:53 | the length prefix is a big-endian 32-bit unsigned value |
| BatchServer.DecodeEncode32 | get_data_server_batch.py:53 | decoding an encoded length gives it back |
| BatchServer.EncodeDecode32 | get_data_server_batch.py:53 | encoding a decoded prefix gives back its four bytes |
| BatchServer.RejectedPacket | get_data_server_batch.py:118-129 | a short packet or a bad header only raises the error count |
| BatchServer.AcceptedPacket | get_data_server_batch.py:131-153 | field by field: the counted loss is `(seq - expected) mod 8`; the first packet only clears the flag; a non-zero reserved byte counts an error but the packet still counts |
| BatchServer.LossIsTheGap | get_data_server_batch.py:140-152 | the loss counted is the gap to the expected sequence modulo 8, zero exactly for the expected one |
| BatchServer.StartsShape | get_data_server_batch.py:82-101 | the packets found in a body do not overlap, lie inside it and each starts with the header |
| BatchServer.ScanIsApplyAt | get_data_server_batch.py:82-101 | the scan processes exactly the packets at the offsets it finds |
| BatchServer.WholePacketsScan | get_data_server_batch.py:82-101 | a body of header-led packets back to back is processed packet by packet |
| BatchServer.FramedRecord | get_data_server_batch.py:45-73 | a prefixed record of valid length is processed as its body, then the stream goes on |
| BatchServer.BadLengthNotSkipped | get_data_server_batch.py:55-58 | a bad length is counted and the stream resumes right after the prefix, without skipping the body |
| BatchServer.TruncatedRecordDropped | get_data_server_batch.py:60-63 | a record cut short by the end of the stream is dropped |
| BatchServer.RecvExact | get_data_server_batch.py:108-116 | an exact read yields exactly `n` bytes, or nothing when the stream ends first |
| BatchServer.BatchPacketProcessor.constructor | get_data_server_batch.py:28-36 | the processor starts in `Initial` |
| BatchServer.BatchPacketProcessor.ProcessLidarPacket | get_data_server_batch.py:118-156 | the state changes as `PacketSpec` states |
| BatchServer.BatchPacketProcessor.ProcessPossibleBatch | get_data_server_batch.py:82-106 | the state changes as `Scan` states |
| BatchServer.BatchPacketProcessor.ProcessBody | get_data_server_batch.py:65-73 | the state changes as `BodySpec` states |
| BatchServer.BatchPacketProcessor.ReadRecord | get_data_server_batch.py:46-73 | one loop step reads one prefixed record as `Records` states |
| BatchServer.BatchPacketProcessor.ProcessBatchStream | get_data_server_batch.py:38-77 | the state changes as `Records` of the whole stream states |
| BatchReceiver.Slot | get_data_batch_receiver.py:102-104 | slot `i` of a batch is a whole 352-byte packet |
| BatchReceiver.CheckPacket | get_data_batch_receiver.py:122-140 | a packet is reported valid exactly when it has at least 4 bytes, its header is `0A 00` and its sequence is the slot's; byte 3 is never read |
| BatchReceiver.SlotsCollect | get_data_batch_receiver.py:99-109 | the sequences collected are those of the slots that passed, in slot order |
| BatchReceiver.SlotsCount | get_data_batch_receiver.py:99-109 | each slot raises either the packet count or one of the error counts, never both |
| BatchReceiver.CheckPacketEffect | get_data_batch_receiver.py:122-140 | a passing packet changes no count and carries its slot's sequence; a failing one raises exactly one error count |
| BatchReceiver.AllValidIff | get_data_batch_receiver.py:142-146 | the collected sequences equal the full range exactly when every slot passes, as the Python list comparison requires |
| BatchReceiver.BatchEffect | get_data_batch_receiver.py:91-112 | a wrong-size batch only raises the size-error count; a whole batch raises the batch count once, counts its passing packets, and adds one more error when not all eight pass |
| BatchReceiver.ValidFromMembers | get_data_batch_receiver.py:99-109 | the collected sequences are exactly those of the packets that passed |
| BatchReceiver.HeadersOkBatch | get_data_batch_receiver.py:91-148 | when every slot has the header, only sequence errors are counted: one per failing slot, plus one for an incomplete set |
| BatchReceiver.DrainLeftover | get_data_batch_receiver.py:80-84 | after slicing, less than one batch remains buffered |
| BatchReceiver.DrainExtends | get_data_batch_receiver.py:76-84 | slicing more data continues from where the shorter slicing stopped, with its counts |
| BatchReceiver.ChunkingIndependent | get_data_batch_receiver.py:64-89 | a connection's counts depend only on the concatenated bytes, not on how they were split into reads; the byte count is their total length |
| BatchReceiver.LidarBatchReceiver.constructor | get_data_batch_receiver.py:21-36 | the receiver starts with zero counts |
| BatchReceiver.LidarBatchReceiver.ValidatePacket | get_data_batch_receiver.py:122-140 | the result and counts are those of `CheckPacket` |
| BatchReceiver.LidarBatchReceiver.ValidateBatchSequences | get_data_batch_receiver.py:142-154 | the counts are those of `SequencesCheck` |
| BatchReceiver.LidarBatchReceiver.ProcessBatch | get_data_batch_receiver.py:91-120 | the counts change as `BatchSpec` states |
| BatchReceiver.LidarBatchReceiver.HandleClient | get_data_batch_receiver.py:64-89 | the counts change as `ClientSpec` states |
| BatchSender.TestPacket | test_batch_sender.py:19-33 | a test packet is one 352-byte packet |
| BatchSender.TestPacketBytes | test_batch_sender.py:19-33 | the packet has the header, the sequence's low nibble, a zero reserved byte, and data byte `i` equal to `(sequence * 100 + i) mod 256` |
| BatchSender.TestPacketAccepted | test_batch_sender.py:19-33 | the receiver accepts a test packet at slot `i` exactly when `i` is the sequence modulo 16 |
| BatchSender.BatchOfSlot | test_batch_sender.py:35-43 | slot `k` of a generated batch is the test packet for the `k`-th sequence sent |
| BatchSender.TestBatch | test_batch_sender.py:35-43 | a test batch is 8 × 352 bytes |
| BatchSender.IncompleteBatch | test_batch_sender.py:45-60 | an incomplete batch is also 8 × 352 bytes |
| BatchSender.TestBatchRoundTrip | test_batch_sender.py:35-43 | the receiver collects sequences 0..7 from a test batch, and only the batch count (+1) and the packet count (+8) change |
| BatchSender.IncompleteSlotOk | test_batch_sender.py:56 | a slot passes the receiver's check exactly when its sequence is not among the missing ones, since `(seq + 10) mod 16` never equals `seq` |
| BatchSender.IncompleteBatchCollects | test_batch_sender.py:45-60 | the receiver collects exactly the sequences below 8 that are not missing |
| BatchSender.IncompleteBatchEffect | test_batch_sender.py:45-60 | an incomplete batch counts as one batch with its passing packets; the sequence errors are one per replaced slot, plus one when anything is missing |
| BatchSender.CreateTestPacket | test_batch_sender.py:19-33 | the method builds `TestPacket` |
| BatchSender.CreateTestBatch | test_batch_sender.py:35-43 | the method builds `TestBatch` |
| BatchSender.CreateIncompleteBatch | test_batch_sender.py:45-60 | the method builds `IncompleteBatch` for the given missing set |
| HeaderScan.EncodeLittleEndian32 | tools/cv2.py:45 | a value below 2^32 encodes to four bytes |
| HeaderScan.DecodeEncode32 | tools/cv2.py:45 | `struct.unpack('<I')` undoes the encoding |
| HeaderScan.EncodeDecode32 | tools/cv2.py:45 | encoding a decoded word gives back its bytes |
| HeaderScan.ScanLeftover | tools/cv2.py:38-60 | after a scan, fewer than 8 bytes remain, and they are a suffix of the buffer |
| HeaderScan.ScanExtends | tools/cv2.py:22-65 | scanning more bytes continues from the shorter scan's leftover |
| HeaderScan.ScanFrames | tools/cv2.py:38-60 | a stream of header-led words is read back as exactly those values |
| HeaderScan.ScanSkipsNoise | tools/cv2.py:57-60 | non-header bytes are skipped one at a time |
| HeaderScan.ScanBuffer | tools/cv2.py:37-60 | the values read and the rest are those of `Scan`, and "processed" is reported exactly when the buffer holds at least 8 bytes |
| HeaderScan.HandleConnection | tools/cv2.py:22-69 | a connection reports the values of `Scan` over all its received bytes |
| HexDump.HexDigit | get_data.py:44 | a hex digit is one of `0-9A-F` |
| HexDump.HexValueDigit | get_data.py:44 | the hex digit's value is the nibble it was made from |
| HexDump.Token | get_data.py:44 | a byte's token is three characters ending in a space |
| HexDump.EmittedThenRest | get_data.py:34-46 | the dump of a stream is what was emitted so far followed by the dump of the rest |
| HexDump.UndumpPiece | get_data.py:40-44 | the output for one byte decodes back to that byte |
| HexDump.UndumpDump | get_data.py:18-50 | the dump decodes back to the bytes received |
| HexDump.LastByteFlushed | get_data.py:49-50 | the dump is everything emitted before the last byte, followed by the last byte's token, which the final flush writes |
| HexDump.EmitStep | get_data.py:39-46 | a new byte writes the held byte's token, after a newline when the held byte and the new one are `0A 00` |
| HexDump.DumpChunk | get_data.py:34-46 | after a chunk, the output is the dump of every byte received so far except the last one, which is held back as `prev_byte` until the next byte or the final flush |
| HexDump.DumpStream | get_data.py:18-50 | the output is the dump of all received chunks joined |

## Left out

- Counters are unbounded naturals. The firmware's `uint32_t` counters would wrap after 2^32 events, which the model does not show; only the tick arithmetic and the port cast wrap.
- Time: `xTaskGetTickCount` is a `now` parameter and the tick rate a constructor parameter; the delays in `vTaskDelay` are recorded as milliseconds, not waited. One `now` stamps every packet cached and drives every staleness check within a single `lidar_analyze_data` call, while the code reads the tick afresh at each cache and each check (`main/lidar_packet.c:90`, `main/lidar_packet.c:101`), so the model does not show the tick advancing within one call.
- Sockets: `send` is an oracle `(call, remaining) -> result` that never reports more than it was offered; `recv` is the caller's chunk list or stream. Socket options, `connect`, `accept` and the reconnect loop of `tcp_client_task` are left out, except the handle update in `Client.Attach`.
- Concurrency: tasks and the socket mutex are not modelled. Each handler runs atomically on a snapshot of the handle, which is how the compare-and-clear lemmas are stated.
- `tcp_sender_task` (`main/lidar_packet.c:291-330`) is left out except for `QueueReceive`, because its only further effect is logging and calling `TcpClient.Client.SendData`.
- `taskYIELD`, the periodic statistics logs, the queue-depth warning, every `ESP_LOG*` and debug hex dump, and the unused `byte_position` argument are left out because they do not change state.
- A failed `malloc` and a failed queue creation are not modelled beyond the `created` flag on the queue.
- UrlEncodedServer.DecodeOne: a `%` followed by anything but two hex digits is decoded by a `scan` parameter applied to the whole text after the `%`, because `sscanf("%2x")` skips leading white space and may then read past the two characters; the model does not fix what the C library yields there.
- CString.AtoiOfDecimal: `atoi` is modelled without overflow. A value too large for `int` is undefined in C and out of scope.
- NVS storage (`config_save`, `save_config_to_nvs`, `load_config_from_nvs`) is left out; `KeySearchServer.ConfigStore.Save` records the new configuration and the saved flag.
- The HTML pages (`root_get`, `config_get`), status, restart, reboot and favicon handlers, and Wi-Fi and soft-AP bring-up are left out as rendering and platform calls. The page's form fields enter only as `UrlEncodedServer.FormValue`, for the round trip.
- The receive buffers' sizes (2047 and 1023 bytes) are not modelled as bounds on the body; the handler reads what `recv` returned.
- The default configuration macros are a `defaults` parameter.
- Dataproc: the packet size P, the packets per frame N and the ring capacity C are parameters (`Params`), because `LIDAR_FRAME_PACKETS` and `FRAME_BUFFER_COUNT` are not defined in `main/config.h`, and the 44-byte `lidar_packet_t` does not match the 352-byte `LIDAR_PACKET_SIZE`. The other modules use their files' constants.
- `get_data_server.py`, `get_data_server_batch.py` and `get_data_batch_receiver.py`: file logging, `_write_packet`, the statistics thread and rates, and `serve_forever`/accept loops are left out. The 5-second log in `get_data_server_batch.py:159-164` that also resets `total_bytes` is left out because it depends on wall-clock time.
- `test_batch_sender.py`: the random choice of missing sequences is the `missing` parameter; the main loop, `sleep`, `print` and socket writes are left out.
- `tools/cv2.py`: the accept loop is left out; an exception from `recv` ends the connection; printed values are returned. The `except` branch and the 1000-byte clear cannot be reached, as `HeaderScan.ScanLeftover` shows.
- `get_data.py`: argument parsing, the output file and the socket timeout are left out; the dump is a character sequence.
- Dataproc.PushSpec: the buffered count saturates at `C`, where `main/dataproc.c:215` increments it without bound; so the main model never reaches the flush that reads past the ring, which only `AsWrittenPush` shows (see Findings).
- Dataproc.FrameBuffer.Push: implements the corrected `PushSpec`; the `bufferedFrames < C` guard is not in `main/dataproc.c:215`.
- Dataproc.Deliver: pushes through the corrected `PushSpec`, so its ring invariant holds only with the correction.
- Dataproc.TaskStep: its ring half uses the corrected `PushSpec`, so the overrun the code as written allows is not reachable in it.
- Dataproc.Feed: its ring half uses the corrected `PushSpec`, so the overrun the code as written allows is not reachable in it.
- Dataproc.UartToSockTask.PlacePacket: its ring effect is `Deliver`, with the corrected push.
- Dataproc.UartToSockTask.AssemblePacket: its ring effect is `Deliver`, with the corrected push.
- Dataproc.UartToSockTask.HandleFullPacket: its ring effect is `Deliver`, with the corrected push.
- Dataproc.UartToSockTask.ConsumePacket: its ring effect is `Deliver`, with the corrected push.
- Dataproc.UartToSockTask.CollectByte: its ring effect is `Deliver`, with the corrected push.
- Dataproc.UartToSockTask.FinishFrame: pushes through the corrected `FrameBuffer.Push`.
- Dataproc.UartToSockTask.ProcessByte: equals `TaskStep`, so it uses the corrected push.
- Dataproc.UartToSockTask.OnRead: equals `Feed`, so it uses the corrected push.
- TcpClient.SendSpec: uses the corrected loop, so a 0 result closes the socket and clears the handle, where `main/tcp_client.c:57-87` calls `send` again.
- TcpClient.WriteLoop: implements the corrected loop, so a 0 result ends it as fatal, where `main/tcp_client.c:57-87` calls `send` again.
- TcpClient.Client.SendData: equals `SendSpec`, so a 0 result closes the socket and clears the handle, where `main/tcp_client.c:57-87` calls `send` again.
- TcpClient.Loop: the corrected loop treats a 0 result as fatal; the code as written is `AsWrittenLoop`, which needs a fuel bound because it need not terminate.
- A would-block result is retried with back-off. As written, a 0 result loops (`AsWrittenLoop`); the main model treats it as fatal (see Findings). The current validator reads only the low nibble of the sequence byte.

## Findings

| source | as written | input that shows it | evidently intended | confidence | as-written member | corrected member |
|---|---|---|---|---|---|---|
| main/lidar_packet.c:256-263 | when 352 or more unscanned bytes follow the last accepted packet, none of them is kept for the next read | 352 noise bytes, then the first 10 bytes of a valid packet in one read, and the other 342 bytes in the next read: no packet is detected | keep the last 351 bytes, which the scan has not examined as a packet start, so a packet split across reads is found | not executed | LidarPacket.SplitPacketLost | LidarPacket.FixedChunkingInvariant |
| main/dataproc.c:215-222 | with no socket, `send_buffered_frames` returns before the reset, so every completed frame increments `g_buffered_frames` without limit | `C` completed frames with no connection, then one more once a socket is open: the count reaches `C + 1` and the flush loop reads `g_frame_buffer[C]`, past the `C`-slot ring | the buffered count never exceeds the ring's capacity | not executed | Dataproc.AsWrittenOfflineOverrun | Dataproc.OfflinePushesSaturate |
| main/tcp_client.c:56-89 | a `send` result of 0 neither adds bytes nor counts a retry, so the loop never ends | a socket whose `send` keeps returning 0 | a 0 result ends the attempt as a failure, like a negative one | not executed | TcpClient.ZeroResultsNeverEnd | TcpClient.ZeroResultIsFatal |
