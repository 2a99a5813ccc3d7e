/** The hex dumper of the TCP client (get_data.py, `dump_stream`).

    Every received byte is written as two upper-case hex digits and a space.
    A line break goes in front of a byte that starts the `0A 00` header, so
    each packet begins a line. Whether a byte starts a header is known only
    once the next byte is in, so each byte is held back until the next one
    arrives, across `recv` chunks, and the last one is written when the peer
    closes. The file the tokens go to is the output of the model. */
module HexDump {
  import opened Bytes

  /** One upper-case hex digit, as `format(d, 'X')` writes it. */
  function HexDigit(d: nat): (c: char)
    requires d < 16
    ensures '0' <= c <= '9' || 'A' <= c <= 'F'
  {
    if d < 10 then (48 + d) as char else (55 + d) as char
  }

  /** The value of a hex digit; any other character reads as 0. */
  function HexValue(c: char): (d: nat)
    ensures d < 16
  {
    if '0' <= c <= '9' then c as int - 48
    else if 'A' <= c <= 'F' then c as int - 55
    else 0
  }

  lemma {:induction false} HexValueDigit(d: nat)
    requires d < 16
    ensures HexValue(HexDigit(d)) == d
  {
  }

  /** `f"{b:02X} "`. */
  function Token(b: byte): (t: seq<char>)
    ensures |t| == 3 && t[2] == ' '
  {
    [HexDigit(b / 16), HexDigit(b % 16), ' ']
  }

  /** What byte `k` of the stream turns into: its token, after a line break
      when it and the byte after it are `0A 00`. The last byte has no byte
      after it, so it never gets a line break. */
  function Piece(s: seq<byte>, k: nat): seq<char>
    requires k < |s|
  {
    (if k + 1 < |s| && s[k] == HEADER_0 && s[k + 1] == HEADER_1 then "\n" else "") + Token(s[k])
  }

  /** The dump of the stream from byte `k` on. */
  function DumpFrom(s: seq<byte>, k: nat): seq<char>
    requires k <= |s|
    decreases |s| - k
  {
    if k == |s| then [] else Piece(s, k) + DumpFrom(s, k + 1)
  }

  /** The whole dump of a stream. */
  function Dump(s: seq<byte>): seq<char>
  {
    DumpFrom(s, 0)
  }

  /** The dump of the first `n` bytes of the stream, built the way the
      dumper writes it: one byte after another. */
  function Emitted(s: seq<byte>, n: nat): seq<char>
    requires n <= |s|
    decreases n
  {
    if n == 0 then [] else Emitted(s, n - 1) + Piece(s, n - 1)
  }

  /** The dump can be read back: dropping the line breaks and reading each
      token as a hex byte. */
  function Undump(t: seq<char>): seq<byte>
    decreases |t|
  {
    if |t| < 3 then []
    else if t[0] == '\n' then Undump(t[1..])
    else [HexValue(t[0]) * 16 + HexValue(t[1])] + Undump(t[3..])
  }

  /** Writing byte by byte and the whole dump agree: the first `n` bytes
      written, followed by the dump of the rest, is the whole dump. */
  lemma {:induction false} EmittedThenRest(s: seq<byte>, n: nat)
    requires n <= |s|
    ensures Emitted(s, n) + DumpFrom(s, n) == Dump(s)
    decreases n
  {
    if n > 0 {
      EmittedThenRest(s, n - 1);
      assert DumpFrom(s, n - 1) == Piece(s, n - 1) + DumpFrom(s, n);
      assert Emitted(s, n - 1) + (Piece(s, n - 1) + DumpFrom(s, n))
          == (Emitted(s, n - 1) + Piece(s, n - 1)) + DumpFrom(s, n);
    } else {
      assert [] + DumpFrom(s, 0) == DumpFrom(s, 0);
    }
  }

  /** Bytes that arrive later do not change what was already written for
      the bytes that have a successor. */
  lemma {:induction false} EmittedExtends(s: seq<byte>, t: seq<byte>, n: nat)
    requires n < |s|
    ensures Emitted(s + t, n) == Emitted(s, n)
    decreases n
  {
    if n > 0 {
      EmittedExtends(s, t, n - 1);
      assert (s + t)[n - 1] == s[n - 1] && (s + t)[n] == s[n];
      assert Piece(s + t, n - 1) == Piece(s, n - 1);
    }
  }

  /** A token reads back as its byte. */
  lemma {:induction false} UndumpToken(b: byte, rest: seq<char>)
    ensures Undump(Token(b) + rest) == [b] + Undump(rest)
  {
    var t := Token(b) + rest;
    HexValueDigit(b / 16);
    HexValueDigit(b % 16);
    assert t[0] == HexDigit(b / 16) && t[1] == HexDigit(b % 16);
    assert t[3..] == rest;
  }

  /** A line break is skipped when reading back. */
  lemma {:induction false} UndumpNewline(t: seq<char>)
    ensures Undump("\n" + t) == Undump(t)
  {
    assert ("\n" + t)[1..] == t;
  }

  /** What byte `k` turns into reads back as that byte. */
  lemma {:induction false} UndumpPiece(s: seq<byte>, k: nat, rest: seq<char>)
    requires k < |s|
    ensures Undump(Piece(s, k) + rest) == [s[k]] + Undump(rest)
  {
    var tail := Token(s[k]) + rest;
    UndumpToken(s[k], rest);
    if k + 1 < |s| && s[k] == HEADER_0 && s[k + 1] == HEADER_1 {
      var nl := "\n";
      assert Piece(s, k) == nl + Token(s[k]);
      assert (nl + Token(s[k])) + rest == nl + tail;
      UndumpNewline(tail);
    } else {
      assert Piece(s, k) == Token(s[k]);
    }
  }

  /** Each byte is written exactly once, as its own token, in order: the
      dump reads back as the stream. */
  lemma {:induction false} UndumpDumpFrom(s: seq<byte>, k: nat)
    requires k <= |s|
    ensures Undump(DumpFrom(s, k)) == s[k..]
    decreases |s| - k
  {
    if k < |s| {
      var rest := DumpFrom(s, k + 1);
      assert DumpFrom(s, k) == Piece(s, k) + rest;
      UndumpPiece(s, k, rest);
      UndumpDumpFrom(s, k + 1);
      assert [s[k]] + s[k + 1..] == s[k..];
    } else {
      assert DumpFrom(s, k) == [];
    }
  }

  lemma {:induction false} UndumpDump(s: seq<byte>)
    ensures Undump(Dump(s)) == s
  {
    UndumpDumpFrom(s, 0);
  }

  /** The byte held back at the close is written last, with no line break,
      even when it is `0A`. */
  lemma {:induction false} LastByteFlushed(s: seq<byte>)
    requires s != []
    ensures Dump(s) == Emitted(s, |s| - 1) + Token(s[|s| - 1])
  {
    EmittedThenRest(s, |s|);
    assert DumpFrom(s, |s|) == [];
    assert Emitted(s, |s|) + [] == Emitted(s, |s|);
    assert Piece(s, |s| - 1) == Token(s[|s| - 1]);
  }

  /** The dumper's state after the bytes `seen`: every byte but the last
      is written, and the last one is held in `prevByte`. */
  ghost predicate Streamed(seen: seq<byte>, prevByte: Option<byte>, out: seq<char>)
  {
    if seen == [] then prevByte == None && out == []
    else prevByte == Some(seen[|seen| - 1]) && out == Emitted(seen, |seen| - 1)
  }

  /** One more byte `b`: the held byte is written, after a line break when
      it and `b` are `0A 00`. */
  lemma {:induction false} EmitStep(seen: seq<byte>, b: byte)
    requires seen != []
    ensures var prev := seen[|seen| - 1];
      Emitted(seen + [b], |seen|)
        == Emitted(seen, |seen| - 1) + (if prev == HEADER_0 && b == HEADER_1 then "\n" else "") + Token(prev)
  {
    var next := seen + [b];
    EmittedExtends(seen, [b], |seen| - 1);
    assert next[|seen| - 1] == seen[|seen| - 1] && next[|seen|] == b;
  }

  /** The `for b in chunk` loop of `dump_stream`: each byte is held back
      and the one held before it is written. */
  method DumpChunk(chunk: seq<byte>, ghost seen: seq<byte>, prevByte: Option<byte>, out: seq<char>)
    returns (prevByte': Option<byte>, out': seq<char>)
    requires Streamed(seen, prevByte, out)
    ensures Streamed(seen + chunk, prevByte', out')
  {
    prevByte', out' := prevByte, out;
    ghost var now := seen;
    var i := 0;
    while i < |chunk|
      invariant i <= |chunk|
      invariant now == seen + chunk[..i]
      invariant Streamed(now, prevByte', out')
    {
      var b := chunk[i];
      ghost var next := now + [b];
      assert next == seen + chunk[..i + 1] by {
        assert chunk[..i + 1] == chunk[..i] + [b];
      }
      assert next != [] && next[|next| - 1] == b;
      if prevByte'.None? {
        prevByte' := Some(b);
        assert next == [b];
      } else {
        var prev := prevByte'.value;
        EmitStep(now, b);
        if prev == HEADER_0 && b == HEADER_1 {
          out' := out' + ['\n'];
        }
        out' := out' + Token(prev);
        prevByte' := Some(b);
        assert out' == Emitted(next, |next| - 1);
      }
      now := next;
      i := i + 1;
    }
    assert chunk[..i] == chunk;
  }

  /** `dump_stream` on a connection whose `recv` calls return `chunks`:
      the output does not depend on how the stream is cut into chunks. */
  method DumpStream(chunks: seq<seq<byte>>) returns (out: seq<char>)
    ensures out == Dump(Received(chunks))
  {
    var prevByte: Option<byte> := None;
    out := [];
    ghost var seen: seq<byte> := [];
    var k := 0;
    assert chunks[k..] == chunks;
    while k < |chunks|
      invariant k <= |chunks|
      invariant Received(chunks) == seen + Received(chunks[k..])
      invariant Streamed(seen, prevByte, out)
    {
      var chunk := chunks[k];
      assert chunks[k..][0] == chunk;
      if chunk == [] {
        assert Received(chunks[k..]) == [];
        break;
      }
      assert chunks[k..][1..] == chunks[k + 1..];
      prevByte, out := DumpChunk(chunk, seen, prevByte, out);
      seen := seen + chunk;
      k := k + 1;
    }
    if k == |chunks| {
      assert Received(chunks[k..]) == [];
    }
    assert seen == Received(chunks);
    if prevByte.Some? {
      out := out + Token(prevByte.value);
      LastByteFlushed(seen);
    }
  }
}
