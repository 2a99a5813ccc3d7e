/** Machine-level vocabulary shared by the firmware and host-tool models:
    fixed-width unsigned integers, the LiDAR header magic and an Option type. */
module Bytes {

  /** An unsigned 8-bit value (C `uint8_t`, a Python `bytes` element). */
  type byte = x: int | 0 <= x < 0x100

  /** C `uint16_t`. */
  type u16 = x: int | 0 <= x < 0x1_0000

  /** C `uint32_t`; FreeRTOS tick counts have this width. */
  type u32 = x: int | 0 <= x < 0x1_0000_0000

  /** First and second byte of every LiDAR packet (`LIDAR_HEADER_0`, `LIDAR_HEADER_1`). */
  const HEADER_0: byte := 0x0A
  const HEADER_1: byte := 0x00

  datatype Option<T> = None | Some(value: T)

  /** True when a packet-sized window of `buf` starts at offset `i` with the header magic. */
  predicate HeaderAt(buf: seq<byte>, i: nat)
    requires i + 2 <= |buf|
  {
    buf[i] == HEADER_0 && buf[i + 1] == HEADER_1
  }

  /** The low nibble of a byte: C `b & 0x0F`, Python `b & 0x0F`. */
  function LowNibble(b: byte): (r: nat)
    ensures r < 16
    ensures b < 16 ==> r == b
  {
    b % 16
  }

  /** C unsigned subtraction `a - b` on `uint32_t`: wraps modulo 2^32. */
  function Sub32(a: u32, b: u32): (r: u32)
    ensures b <= a ==> r == a - b
    ensures a < b ==> r == a - b + 0x1_0000_0000
  {
    (a - b) % 0x1_0000_0000
  }

  function Min(a: int, b: int): int { if a <= b then a else b }

  /** The bytes of consecutive chunks, joined. */
  function Concat(chunks: seq<seq<byte>>): seq<byte>
    decreases |chunks|
  {
    if chunks == [] then [] else chunks[0] + Concat(chunks[1..])
  }

  /** What a reader loop over `recv` results takes in: the chunks up to the
      first empty one, which is the peer closing the connection. */
  function Received(chunks: seq<seq<byte>>): seq<byte>
    decreases |chunks|
  {
    if chunks == [] || chunks[0] == [] then [] else chunks[0] + Received(chunks[1..])
  }

  /** C `memcpy(dst + off, src, |src|)`: overwrites exactly `|src|` bytes of `dst`. */
  method Memcpy(dst: array<byte>, off: nat, src: seq<byte>)
    requires off + |src| <= dst.Length
    modifies dst
    ensures dst[..] == old(dst[..off]) + src + old(dst[off + |src|..])
  {
    var k := 0;
    while k < |src|
      invariant 0 <= k <= |src|
      invariant dst[..] == old(dst[..off]) + src[..k] + old(dst[off + k..])
    {
      dst[off + k] := src[k];
      k := k + 1;
      assert src[..k] == src[..k - 1] + [src[k - 1]];
    }
    assert src[..k] == src;
  }
}
