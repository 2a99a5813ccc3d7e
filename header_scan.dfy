/** The stream scanner of the uint32 listener (tools/cv2.py).

    Per connection, received bytes are appended to a buffer. While the buffer
    holds at least eight bytes, either it starts with `0A 00 00 00`, and the
    next four bytes are read as a little-endian uint32 and all eight are
    dropped, or its first byte is dropped. The values read are what the
    listener reports; they are the output of the model. */
module HeaderScan {
  import opened Bytes

  /** `header = b'\x0a\x00\x00\x00'`. */
  const HEADER: seq<byte> := [0x0A, 0x00, 0x00, 0x00]

  /** A header and its uint32 take this many bytes. */
  const FRAME_SIZE: nat := 8

  /** `struct.unpack('<I', b)`. */
  function LittleEndian32(b: seq<byte>): (r: u32)
    requires |b| == 4
  {
    b[0] as int + 0x100 * b[1] as int + 0x1_0000 * b[2] as int + 0x100_0000 * b[3] as int
  }

  /** `struct.pack('<I', n)`: the partner of `LittleEndian32`. */
  function EncodeLittleEndian32(n: u32): (b: seq<byte>)
    ensures |b| == 4
  {
    var q1 := n / 0x100;
    var q2 := q1 / 0x100;
    [n % 0x100, q1 % 0x100, q2 % 0x100, q2 / 0x100]
  }

  lemma {:induction false} DecodeEncode32(n: u32)
    ensures LittleEndian32(EncodeLittleEndian32(n)) == n
  {
    var q1 := n / 0x100;
    var q2 := q1 / 0x100;
    assert n == q1 * 0x100 + n % 0x100;
    assert q1 == q2 * 0x100 + q1 % 0x100;
    assert q2 == (q2 / 0x100) * 0x100 + q2 % 0x100;
  }

  lemma {:induction false} EncodeDecode32(b: seq<byte>)
    requires |b| == 4
    ensures EncodeLittleEndian32(LittleEndian32(b)) == b
  {
    var n := LittleEndian32(b);
    var q1 := b[1] as int + 0x100 * b[2] as int + 0x1_0000 * b[3] as int;
    var q2 := b[2] as int + 0x100 * b[3] as int;
    assert n == q1 * 0x100 + b[0];
    assert n / 0x100 == q1 && n % 0x100 == b[0];
    assert q1 == q2 * 0x100 + b[1];
    assert q1 / 0x100 == q2 && q1 % 0x100 == b[1];
    assert q2 / 0x100 == b[3] && q2 % 0x100 == b[2];
  }

  /** The inner `while len(buff) >= 8` loop: the values read and what is
      left in the buffer. */
  function Scan(buff: seq<byte>): (seq<u32>, seq<byte>)
    decreases |buff|
  {
    if |buff| < FRAME_SIZE then ([], buff)
    else if buff[..4] == HEADER then
      var r := Scan(buff[FRAME_SIZE..]);
      ([LittleEndian32(buff[4..FRAME_SIZE])] + r.0, r.1)
    else Scan(buff[1..])
  }

  /** The loop always stops with fewer than eight bytes left, and what is
      left is the tail of the buffer. */
  lemma {:induction false} ScanLeftover(buff: seq<byte>)
    ensures var rest := Scan(buff).1;
      |rest| < FRAME_SIZE && |rest| <= |buff| && rest == buff[|buff| - |rest|..]
    decreases |buff|
  {
    if |buff| >= FRAME_SIZE {
      if buff[..4] == HEADER {
        ScanLeftover(buff[FRAME_SIZE..]);
      } else {
        ScanLeftover(buff[1..]);
      }
    }
  }

  /** Bytes that arrive later do not change what was read from the bytes
      before them: scanning `x + y` reads what scanning `x` reads, then
      continues from `x`'s leftover followed by `y`. */
  lemma {:induction false} ScanExtends(x: seq<byte>, y: seq<byte>)
    ensures var a := Scan(x);
      var b := Scan(a.1 + y);
      Scan(x + y) == (a.0 + b.0, b.1)
    decreases |x|
  {
    if |x| < FRAME_SIZE {
      assert Scan(x) == ([], x);
      assert [] + Scan(x + y).0 == Scan(x + y).0;
    } else if x[..4] == HEADER {
      assert (x + y)[..4] == x[..4];
      assert (x + y)[4..FRAME_SIZE] == x[4..FRAME_SIZE];
      assert (x + y)[FRAME_SIZE..] == x[FRAME_SIZE..] + y;
      ScanExtends(x[FRAME_SIZE..], y);
      var v := LittleEndian32(x[4..FRAME_SIZE]);
      var a := Scan(x[FRAME_SIZE..]);
      var b := Scan(a.1 + y);
      assert [v] + (a.0 + b.0) == ([v] + a.0) + b.0;
    } else {
      assert (x + y)[..4] == x[..4];
      assert (x + y)[1..] == x[1..] + y;
      ScanExtends(x[1..], y);
    }
  }

  /** What a sender of header-framed values writes. */
  function Frames(values: seq<u32>): seq<byte>
    decreases |values|
  {
    if values == [] then [] else HEADER + EncodeLittleEndian32(values[0]) + Frames(values[1..])
  }

  /** The round trip: scanning framed values reads them all back, in order,
      and leaves nothing behind. */
  lemma {:induction false} ScanFrames(values: seq<u32>)
    ensures Scan(Frames(values)) == (values, [])
    decreases |values|
  {
    if values != [] {
      var f := Frames(values);
      var e := EncodeLittleEndian32(values[0]);
      DecodeEncode32(values[0]);
      assert f == HEADER + e + Frames(values[1..]);
      assert f[..4] == HEADER && f[4..FRAME_SIZE] == e && f[FRAME_SIZE..] == Frames(values[1..]);
      ScanFrames(values[1..]);
      assert [values[0]] + values[1..] == values;
    }
  }

  /** Bytes before a header that are not one are skipped one at a time:
      a byte that does not start `0A 00 00 00`, followed by at least eight
      more bytes, is dropped without effect. */
  lemma {:induction false} ScanSkipsNoise(b: byte, rest: seq<byte>)
    requires b != 0x0A && |rest| >= FRAME_SIZE - 1
    ensures Scan([b] + rest) == Scan(rest)
  {
    assert ([b] + rest)[0] == b;
    assert ([b] + rest)[1..] == rest;
  }

  /** The inner `while len(buff) >= 8` loop on a buffer: the values read,
      what is left, and the `processed` flag, which is set exactly when the
      loop ran at least once. */
  method ScanBuffer(buff: seq<byte>) returns (read: seq<u32>, rest: seq<byte>, processed: bool)
    ensures (read, rest) == Scan(buff)
    ensures processed <==> |buff| >= FRAME_SIZE
  {
    read := [];
    rest := buff;
    processed := false;
    while |rest| >= FRAME_SIZE
      invariant read + Scan(rest).0 == Scan(buff).0 && Scan(rest).1 == Scan(buff).1
      invariant processed <==> rest != buff
      invariant |rest| <= |buff|
      decreases |rest|
    {
      if rest[..4] == HEADER {
        var value := LittleEndian32(rest[4..FRAME_SIZE]);
        ghost var later := Scan(rest[FRAME_SIZE..]).0;
        assert Scan(rest).0 == [value] + later;
        read := read + [value];
        assert read + later == Scan(buff).0;
        rest := rest[FRAME_SIZE..];
      } else {
        rest := rest[1..];
      }
      processed := true;
    }
    assert Scan(rest) == ([], rest);
    assert read + [] == read;
  }

  /** One connection of `run_server`: the buffer starts empty, each chunk
      `recv` returns is appended and scanned, and the values read are
      returned in order. The connection ends at the first empty chunk.

      The `except` around the unpack cannot fire, since four bytes always
      unpack as `<I`; it is not modelled. The clear of a buffer over 1000
      bytes is kept as written: the scan loop has just left fewer than
      eight bytes, so it never runs. */
  method HandleConnection(chunks: seq<seq<byte>>) returns (values: seq<u32>)
    ensures values == Scan(Received(chunks)).0
  {
    var buff: seq<byte> := [];
    values := [];
    var k := 0;
    assert buff + Received(chunks[k..]) == Received(chunks);
    while k < |chunks|
      invariant k <= |chunks|
      invariant |buff| < FRAME_SIZE
      invariant Scan(Received(chunks)).0 == values + Scan(buff + Received(chunks[k..])).0
    {
      var data := chunks[k];
      assert chunks[k..][0] == data;
      if data == [] {
        assert Received(chunks[k..]) == [] && Scan(buff) == ([], buff);
        break;
      }
      assert chunks[k..][1..] == chunks[k + 1..];
      ghost var later := Received(chunks[k + 1..]);
      assert buff + Received(chunks[k..]) == (buff + data) + later;
      buff := buff + data;
      ghost var start := buff;
      var read, processed;
      read, buff, processed := ScanBuffer(buff);
      ScanLeftover(start);
      if !processed && |buff| > 1000 {
        buff := [];
      }
      ScanExtends(start, later);
      assert values + (read + Scan(buff + later).0) == (values + read) + Scan(buff + later).0;
      values := values + read;
      k := k + 1;
    }
    if k == |chunks| {
      assert Received(chunks[k..]) == [] && Scan(buff) == ([], buff);
    }
  }
}
