// Sender retry loop and socket-handle teardown of main/tcp_client.c.
//
// `send()` is an oracle `send(call, want)`: the result of the `call`-th send
// of the session when `want` bytes are offered. A result is a byte count
// (possibly 0), a would-block error (EAGAIN / EWOULDBLOCK) or any other error.
// Each function runs atomically on a snapshot of the shared handle `g_sock`;
// interleavings are modelled at the granularity of whole handle operations.

module TcpClient {
  import opened Bytes

  /** `max_retries` (line 53). */
  const MAX_RETRIES: nat := 100

  datatype SendResult = Returned(n: nat) | WouldBlock | OtherError

  /** A POSIX `send` never reports more bytes than it was offered. */
  ghost predicate Honest(send: (nat, nat) -> SendResult)
  {
    forall call: nat, want: nat :: send(call, want).Returned? ==> send(call, want).n <= want
  }

  /** The delay in milliseconds after the `r`-th consecutive would-block
      (lines 65-75). */
  function RetryDelay(r: nat): nat
  {
    if r < 10 then 1 else if r < 50 then 5 else 10
  }

  /** The delays of retries `i + 1 .. j`, in order. */
  function Ramp(i: nat, j: nat): seq<nat>
    decreases j - i
  {
    if i >= j then [] else [RetryDelay(i + 1)] + Ramp(i + 1, j)
  }

  function Sum(s: seq<nat>): nat
  {
    if s == [] then 0 else s[0] + Sum(s[1..])
  }

  /** Total waiting time of retries `1 .. r`, in closed form. */
  function Waited(r: nat): nat
  {
    if r < 10 then r else if r < 50 then 9 + 5 * (r - 9) else 209 + 10 * (r - 49)
  }

  lemma {:induction false} RampSum(i: nat, j: nat)
    requires i <= j
    ensures Sum(Ramp(i, j)) == Waited(j) - Waited(i)
    decreases j - i
  {
    if i < j {
      RampSum(i + 1, j);
      assert Ramp(i, j)[1..] == Ramp(i + 1, j);
    }
  }

  /** Giving up after `MAX_RETRIES` consecutive would-blocks has cost 719 ms
      of back-off: 9 waits of 1 ms, 40 of 5 ms and 51 of 10 ms. */
  lemma GiveUpBackOff()
    ensures |Ramp(0, MAX_RETRIES)| == MAX_RETRIES
    ensures Sum(Ramp(0, MAX_RETRIES)) == 719
  {
    RampSum(0, MAX_RETRIES);
    RampLength(0, MAX_RETRIES);
  }

  lemma {:induction false} RampLength(i: nat, j: nat)
    requires i <= j
    ensures |Ramp(i, j)| == j - i
    decreases j - i
  {
    if i < j {
      RampLength(i + 1, j);
    }
  }

  datatype Exit = Complete | GaveUp | Fatal

  /** Sends `from .. to - 1`, each offered `want` bytes, all would-block. */
  ghost predicate BlockedRun(send: (nat, nat) -> SendResult, from: int, to: nat, want: nat)
  {
    forall j: nat :: from <= j < to ==> send(j, want) == WouldBlock
  }

  /** Every send from `from` on, offered `want` bytes, returns 0. */
  ghost predicate ZeroFrom(send: (nat, nat) -> SendResult, from: nat, want: nat)
  {
    forall j: nat :: from <= j ==> send(j, want) == Returned(0)
  }

  /** Where the write loop ends: bytes accepted, retry count, next call index,
      the delays waited, and why it stopped. */
  datatype Attempt = Attempt(total: nat, retries: nat, calls: nat, delays: seq<nat>, exit: Exit)

  /** Upper bound on the sends of one attempt with `rem` bytes to go: each
      accepted byte may follow a full run of `MAX_RETRIES` would-blocks. */
  function Budget(rem: nat, retry: nat): nat
    requires retry <= MAX_RETRIES
  {
    rem * 101 + (MAX_RETRIES - retry) + 1
  }

  /** The write loop of lines 56-89 with a result of 0 treated as fatal, like
      a negative one: every iteration either makes progress, counts a retry
      or leaves the loop. `waits` are the delays waited so far. */
  function Loop(len: nat, send: (nat, nat) -> SendResult, call: nat, total: nat, retry: nat, waits: seq<nat>): (a: Attempt)
    requires Honest(send) && total <= len && retry <= MAX_RETRIES
    ensures total <= a.total <= len && a.retries <= MAX_RETRIES && call <= a.calls
    ensures a.exit == Complete <==> a.total == len
    ensures waits <= a.delays
    decreases len - total, MAX_RETRIES - retry
  {
    if total >= len then Attempt(total, retry, call, waits, Complete)
    else if retry >= MAX_RETRIES then Attempt(total, retry, call, waits, GaveUp)
    else match send(call, len - total)
      case Returned(n) =>
        if n > 0 then Loop(len, send, call + 1, total + n, 0, waits)
        else Attempt(total, retry, call + 1, waits, Fatal)
      case WouldBlock => Loop(len, send, call + 1, total, retry + 1, waits + [RetryDelay(retry + 1)])
      case OtherError => Attempt(total, retry, call + 1, waits, Fatal)
  }

  lemma LoopDone(len: nat, send: (nat, nat) -> SendResult, call: nat, total: nat, retry: nat, waits: seq<nat>)
    requires Honest(send) && total <= len && retry <= MAX_RETRIES
    requires !(total < len && retry < MAX_RETRIES)
    ensures Loop(len, send, call, total, retry, waits)
      == Attempt(total, retry, call, waits, if total >= len then Complete else GaveUp)
  {
  }

  lemma LoopProgress(len: nat, send: (nat, nat) -> SendResult, call: nat, total: nat, retry: nat, waits: seq<nat>, n: nat)
    requires Honest(send) && total < len && retry < MAX_RETRIES
    requires send(call, len - total) == Returned(n) && n > 0
    ensures total + n <= len
    ensures Loop(len, send, call, total, retry, waits) == Loop(len, send, call + 1, total + n, 0, waits)
  {
  }

  lemma LoopRetry(len: nat, send: (nat, nat) -> SendResult, call: nat, total: nat, retry: nat, waits: seq<nat>)
    requires Honest(send) && total < len && retry < MAX_RETRIES
    requires send(call, len - total) == WouldBlock
    ensures Loop(len, send, call, total, retry, waits)
      == Loop(len, send, call + 1, total, retry + 1, waits + [RetryDelay(retry + 1)])
  {
  }

  lemma LoopFail(len: nat, send: (nat, nat) -> SendResult, call: nat, total: nat, retry: nat, waits: seq<nat>)
    requires Honest(send) && total < len && retry < MAX_RETRIES
    requires send(call, len - total) == OtherError || send(call, len - total) == Returned(0)
    ensures Loop(len, send, call, total, retry, waits) == Attempt(total, retry, call + 1, waits, Fatal)
  {
  }

  /** How the loop ends: giving up needs `MAX_RETRIES` retries, and a fatal
      end is caused by the last send returning 0 or an error. */
  lemma {:induction false} LoopEnds(len: nat, send: (nat, nat) -> SendResult, call: nat, total: nat, retry: nat, waits: seq<nat>)
    requires Honest(send) && total <= len && retry <= MAX_RETRIES
    ensures var a := Loop(len, send, call, total, retry, waits);
      && (a.exit == GaveUp ==> a.retries == MAX_RETRIES)
      && (a.exit == Fatal ==>
           (call < a.calls && (send(a.calls - 1, len - a.total) == OtherError || send(a.calls - 1, len - a.total) == Returned(0))))
    decreases len - total, MAX_RETRIES - retry
  {
    if total < len && retry < MAX_RETRIES {
      match send(call, len - total)
      case Returned(n) =>
        if n > 0 {
          LoopProgress(len, send, call, total, retry, waits, n);
          LoopEnds(len, send, call + 1, total + n, 0, waits);
        } else {
          LoopFail(len, send, call, total, retry, waits);
        }
      case WouldBlock =>
        LoopRetry(len, send, call, total, retry, waits);
        LoopEnds(len, send, call + 1, total, retry + 1, waits + [RetryDelay(retry + 1)]);
      case OtherError =>
        LoopFail(len, send, call, total, retry, waits);
    } else {
      LoopDone(len, send, call, total, retry, waits);
    }
  }

  /** An attempt makes at most `Budget` sends, so the corrected loop always
      ends. */
  lemma {:induction false} LoopBudget(len: nat, send: (nat, nat) -> SendResult, call: nat, total: nat, retry: nat, waits: seq<nat>)
    requires Honest(send) && total <= len && retry <= MAX_RETRIES
    ensures Loop(len, send, call, total, retry, waits).calls <= call + Budget(len - total, retry)
    decreases len - total, MAX_RETRIES - retry
  {
    if total < len && retry < MAX_RETRIES {
      match send(call, len - total)
      case Returned(n) =>
        if n > 0 {
          LoopProgress(len, send, call, total, retry, waits, n);
          LoopBudget(len, send, call + 1, total + n, 0, waits);
        } else {
          LoopFail(len, send, call, total, retry, waits);
        }
      case WouldBlock =>
        LoopRetry(len, send, call, total, retry, waits);
        LoopBudget(len, send, call + 1, total, retry + 1, waits + [RetryDelay(retry + 1)]);
      case OtherError =>
        LoopFail(len, send, call, total, retry, waits);
    } else {
      LoopDone(len, send, call, total, retry, waits);
    }
  }

  /** The loop gives up only after `MAX_RETRIES` consecutive would-blocks:
      every positive result in between would have reset the count. */
  lemma {:induction false} GiveUpFollowsWouldBlocks(len: nat, send: (nat, nat) -> SendResult, call: nat, total: nat, retry: nat, waits: seq<nat>)
    requires Honest(send) && total <= len && retry <= MAX_RETRIES && retry <= call
    requires BlockedRun(send, call - retry, call, len - total)
    ensures var a := Loop(len, send, call, total, retry, waits);
      a.exit == GaveUp ==> (MAX_RETRIES <= a.calls && BlockedRun(send, a.calls - MAX_RETRIES, a.calls, len - a.total))
    decreases len - total, MAX_RETRIES - retry
  {
    if total < len && retry < MAX_RETRIES {
      match send(call, len - total)
      case Returned(n) =>
        if n > 0 {
          LoopProgress(len, send, call, total, retry, waits, n);
          GiveUpFollowsWouldBlocks(len, send, call + 1, total + n, 0, waits);
        } else {
          LoopFail(len, send, call, total, retry, waits);
        }
      case WouldBlock =>
        LoopRetry(len, send, call, total, retry, waits);
        GiveUpFollowsWouldBlocks(len, send, call + 1, total, retry + 1, waits + [RetryDelay(retry + 1)]);
      case OtherError =>
        LoopFail(len, send, call, total, retry, waits);
    } else {
      LoopDone(len, send, call, total, retry, waits);
    }
  }

  /** `d` ends with the full escalation of `MAX_RETRIES` delays. */
  ghost predicate EndsWithFullRamp(d: seq<nat>)
  {
    |d| >= MAX_RETRIES && d[|d| - MAX_RETRIES..] == Ramp(0, MAX_RETRIES)
  }

  lemma FullRampAfter(waits: seq<nat>)
    ensures EndsWithFullRamp(waits + Ramp(0, MAX_RETRIES))
  {
    RampLength(0, MAX_RETRIES);
    var d := waits + Ramp(0, MAX_RETRIES);
    assert d[|d| - MAX_RETRIES..] == Ramp(0, MAX_RETRIES);
  }

  lemma RampRetry(waits: seq<nat>, retry: nat)
    requires retry < MAX_RETRIES
    ensures waits + [RetryDelay(retry + 1)] + Ramp(retry + 1, MAX_RETRIES) == waits + Ramp(retry, MAX_RETRIES)
  {
    assert Ramp(retry, MAX_RETRIES) == [RetryDelay(retry + 1)] + Ramp(retry + 1, MAX_RETRIES);
  }

  /** The back-off of a loop that gives up ends with the full escalation
      1 ms, 5 ms, 10 ms of `Ramp(0, MAX_RETRIES)`, or, when no byte was
      accepted, with its tail `Ramp(retry, MAX_RETRIES)`. */
  lemma {:induction false} GiveUpWaits(len: nat, send: (nat, nat) -> SendResult, call: nat, total: nat, retry: nat, waits: seq<nat>)
    requires Honest(send) && total <= len && retry <= MAX_RETRIES
    ensures var a := Loop(len, send, call, total, retry, waits);
      a.exit == GaveUp ==> a.delays == waits + Ramp(retry, MAX_RETRIES) || EndsWithFullRamp(a.delays)
    decreases len - total, MAX_RETRIES - retry
  {
    if total < len && retry < MAX_RETRIES {
      match send(call, len - total)
      case Returned(n) =>
        if n > 0 {
          LoopProgress(len, send, call, total, retry, waits, n);
          GiveUpWaits(len, send, call + 1, total + n, 0, waits);
          FullRampAfter(waits);
        } else {
          LoopFail(len, send, call, total, retry, waits);
        }
      case WouldBlock =>
        LoopRetry(len, send, call, total, retry, waits);
        GiveUpWaits(len, send, call + 1, total, retry + 1, waits + [RetryDelay(retry + 1)]);
        RampRetry(waits, retry);
      case OtherError =>
        LoopFail(len, send, call, total, retry, waits);
    } else {
      LoopDone(len, send, call, total, retry, waits);
      if total < len {
        assert Ramp(retry, MAX_RETRIES) == [];
      }
    }
  }

  /** An attempt that gives up has waited 719 ms over its last
      `MAX_RETRIES` sends. */
  lemma GiveUpCosts719ms(len: nat, send: (nat, nat) -> SendResult, call: nat)
    requires Honest(send)
    ensures var a := Loop(len, send, call, 0, 0, []);
      a.exit == GaveUp ==> |a.delays| >= MAX_RETRIES && Sum(a.delays[|a.delays| - MAX_RETRIES..]) == 719
  {
    GiveUpWaits(len, send, call, 0, 0, []);
    GiveUpBackOff();
    FullRampAfter([]);
  }

  /** The write loop of lines 56-89 as written, run for at most `fuel` sends;
      `None` means the loop is still running when the fuel is spent. A result
      of 0 matches neither branch and the loop goes round again unchanged. */
  function AsWrittenLoop(len: nat, send: (nat, nat) -> SendResult, call: nat, total: nat, retry: nat, waits: seq<nat>, fuel: nat): Option<Attempt>
    requires Honest(send) && total <= len && retry <= MAX_RETRIES
    decreases fuel
  {
    if total >= len then Some(Attempt(total, retry, call, waits, Complete))
    else if retry >= MAX_RETRIES then Some(Attempt(total, retry, call, waits, GaveUp))
    else if fuel == 0 then None
    else match send(call, len - total)
      case Returned(n) =>
        if n > 0 then AsWrittenLoop(len, send, call + 1, total + n, 0, waits, fuel - 1)
        else AsWrittenLoop(len, send, call + 1, total, retry, waits, fuel - 1)
      case WouldBlock => AsWrittenLoop(len, send, call + 1, total, retry + 1, waits + [RetryDelay(retry + 1)], fuel - 1)
      case OtherError => Some(Attempt(total, retry, call + 1, waits, Fatal))
  }

  /** As written, a peer whose sends keep returning 0 holds the loop forever:
      no number of sends ends it. */
  lemma {:induction false} ZeroResultsNeverEnd(len: nat, send: (nat, nat) -> SendResult, call: nat, total: nat, retry: nat, waits: seq<nat>, fuel: nat)
    requires Honest(send) && total < len && retry < MAX_RETRIES
    requires ZeroFrom(send, call, len - total)
    ensures AsWrittenLoop(len, send, call, total, retry, waits, fuel) == None
    decreases fuel
  {
    if fuel > 0 {
      ZeroResultsNeverEnd(len, send, call + 1, total, retry, waits, fuel - 1);
    }
  }

  /** The corrected loop ends on the first 0 with a fatal error. */
  lemma ZeroResultIsFatal(len: nat, send: (nat, nat) -> SendResult, call: nat)
    requires Honest(send) && 0 < len && send(call, len) == Returned(0)
    ensures Loop(len, send, call, 0, 0, []) == Attempt(0, 0, call + 1, [], Fatal)
  {
  }

  /** Where no send returns 0 the source's loop and the corrected one agree,
      and `Budget` sends are enough for the source's loop to end. */
  lemma {:induction false} AsWrittenAgreesWithoutZero(len: nat, send: (nat, nat) -> SendResult, call: nat, total: nat, retry: nat, waits: seq<nat>, fuel: nat)
    requires Honest(send) && total <= len && retry <= MAX_RETRIES
    requires forall j, m :: send(j, m) != Returned(0)
    requires fuel >= Budget(len - total, retry)
    ensures AsWrittenLoop(len, send, call, total, retry, waits, fuel) == Some(Loop(len, send, call, total, retry, waits))
    decreases len - total, MAX_RETRIES - retry
  {
    if total < len && retry < MAX_RETRIES {
      match send(call, len - total)
      case Returned(n) =>
        assert n != 0;
        LoopProgress(len, send, call, total, retry, waits, n);
        AsWrittenAgreesWithoutZero(len, send, call + 1, total + n, 0, waits, fuel - 1);
      case WouldBlock =>
        LoopRetry(len, send, call, total, retry, waits);
        AsWrittenAgreesWithoutZero(len, send, call + 1, total, retry + 1, waits + [RetryDelay(retry + 1)], fuel - 1);
      case OtherError =>
        LoopFail(len, send, call, total, retry, waits);
    } else {
      LoopDone(len, send, call, total, retry, waits);
    }
  }

  /** The sender's view of the connection: the shared handle, the bytes the
      socket accepted in order, the descriptors closed, the delays waited,
      the sends made and the two statistics counters. */
  datatype Conn = Conn(sock: int, wire: seq<byte>, closed: seq<int>, delays: seq<nat>, calls: nat,
                       dropped: nat, incomplete: nat)

  /** Lines 80-85: clear the handle only if it still holds the snapshot `s`,
      closing it. */
  function ClearIfCurrent(c: Conn, s: int): (r: Conn)
    ensures r.sock == -1 || r.sock == c.sock
    ensures r.sock != c.sock ==> c.sock == s && r.closed == c.closed + [s]
    ensures r.sock == c.sock ==> r.closed == c.closed || c.sock == -1
  {
    if c.sock == s then c.(closed := c.closed + [s], sock := -1) else c
  }

  /** Lines 219-222: `sock_to_uart_task` closes its descriptor, then clears
      the handle if it still holds it. */
  function Teardown(c: Conn, s: int): (r: Conn)
    ensures r.closed == c.closed + [s]
    ensures r.sock == (if c.sock == s then -1 else c.sock)
  {
    var c1 := c.(closed := c.closed + [s]);
    if c1.sock == s then c1.(sock := -1) else c1
  }

  /** `tcp_client_send_data` (lines 35-99) with the corrected loop: a result
      of 0 closes the socket and clears the handle, where the code as written
      calls `send` again. */
  function SendSpec(c: Conn, data: seq<byte>, send: (nat, nat) -> SendResult): (r: Conn)
    requires Honest(send)
    ensures c.sock < 0 ==>
      (r.calls == c.calls && r.wire == c.wire && r.sock == c.sock && r.dropped == c.dropped + 1 && r.incomplete == c.incomplete)
    ensures c.sock >= 0 ==>
      (&& r.dropped == c.dropped
       && c.wire <= r.wire && |r.wire| <= |c.wire| + |data|
       && r.wire == c.wire + data[..|r.wire| - |c.wire|]
       && (r.incomplete == c.incomplete + 1 <==> r.wire != c.wire + data)
       && (r.incomplete == c.incomplete <==> r.wire == c.wire + data))
    ensures r.sock == c.sock || (c.sock >= 0 && r.sock == -1 && r.closed == c.closed + [c.sock])
  {
    if c.sock < 0 then c.(dropped := c.dropped + 1)
    else
      var a := Loop(|data|, send, c.calls, 0, 0, c.delays);
      var c1 := c.(wire := c.wire + data[..a.total], delays := a.delays, calls := a.calls);
      var c2 := if a.exit == Fatal then ClearIfCurrent(c1, c.sock) else c1;
      assert c1.wire == c.wire + data <==> a.total == |data|;
      if a.total != |data| then c2.(incomplete := c2.incomplete + 1) else c2
  }

  /** The incomplete-send counter rises exactly when a connected attempt does
      not end `Complete`. */
  lemma IncompleteIffNotComplete(c: Conn, data: seq<byte>, send: (nat, nat) -> SendResult)
    requires Honest(send) && c.sock >= 0
    ensures var a := Loop(|data|, send, c.calls, 0, 0, c.delays);
      SendSpec(c, data, send).incomplete == c.incomplete + (if a.exit == Complete then 0 else 1)
  {
  }

  /** Operations on the shared handle, each atomic: a connect installs a
      descriptor (lines 190-192), a failing sender and a finishing receive
      task clear it by compare-and-clear. */
  datatype HandleOp = Attach(s: int) | SenderClear(s: int) | ReceiverTeardown(s: int)

  function ApplyOp(c: Conn, op: HandleOp): Conn
  {
    match op
    case Attach(s) => c.(sock := s)
    case SenderClear(s) => ClearIfCurrent(c, s)
    case ReceiverTeardown(s) => Teardown(c, s)
  }

  /** Does `op` take a live handle to -1? */
  predicate ClearsLive(c: Conn, op: HandleOp)
  {
    c.sock >= 0 && ApplyOp(c, op).sock == -1
  }

  function Replay(c: Conn, ops: seq<HandleOp>): Conn
    decreases |ops|
  {
    if ops == [] then c else Replay(ApplyOp(c, ops[0]), ops[1..])
  }

  /** How many of `ops` take a live handle to -1. */
  function LiveClears(c: Conn, ops: seq<HandleOp>): nat
    decreases |ops|
  {
    if ops == [] then 0
    else (if ClearsLive(c, ops[0]) then 1 else 0) + LiveClears(ApplyOp(c, ops[0]), ops[1..])
  }

  function Attaches(ops: seq<HandleOp>): nat
  {
    if ops == [] then 0 else (if ops[0].Attach? then 1 else 0) + Attaches(ops[1..])
  }

  /** However the senders and the receive task interleave, the handle goes
      from live to -1 at most once per connect, plus once for the handle
      live at the start: compare-and-clear never clears a descriptor twice. */
  lemma {:induction false} ClearedAtMostOncePerConnect(c: Conn, ops: seq<HandleOp>)
    ensures LiveClears(c, ops) <= Attaches(ops) + (if c.sock >= 0 then 1 else 0)
    decreases |ops|
  {
    if ops != [] {
      ClearedAtMostOncePerConnect(ApplyOp(c, ops[0]), ops[1..]);
    }
  }

  /** A stale snapshot clears nothing: after a reconnect replaced the
      handle, an old sender's compare-and-clear leaves the new one alone. */
  lemma {:induction false} StaleSnapshotsClearNothing(c: Conn, s: int, ops: seq<HandleOp>)
    requires c.sock != s
    requires forall i :: 0 <= i < |ops| ==> ops[i] == SenderClear(s)
    ensures Replay(c, ops) == c
    decreases |ops|
  {
    if ops != [] {
      StaleSnapshotsClearNothing(c, s, ops[1..]);
    }
  }

  /** A sender failure followed by the receive task's teardown on the same
      descriptor closes it twice, although the handle is cleared once. */
  lemma DescriptorClosedTwice(c: Conn, s: int)
    requires c.sock == s && s >= 0
    ensures var r := Replay(c, [SenderClear(s), ReceiverTeardown(s)]);
      r.closed == c.closed + [s, s] && r.sock == -1
      && LiveClears(c, [SenderClear(s), ReceiverTeardown(s)]) == 1
  {
    var ops := [SenderClear(s), ReceiverTeardown(s)];
    var c1 := ClearIfCurrent(c, s);
    assert ops[1..] == [ReceiverTeardown(s)] && ops[1..][1..] == [];
    assert Replay(c, ops) == Replay(c1, [ReceiverTeardown(s)]) == Teardown(c1, s);
    assert LiveClears(c, ops) == 1 + LiveClears(c1, [ReceiverTeardown(s)]);
    assert LiveClears(c1, [ReceiverTeardown(s)]) == 0 + LiveClears(Teardown(c1, s), []);
  }

  /** The write loop of lines 50-89 on its locals: `total_sent`,
      `retry_count`, the sends made and the delays waited, and whether a send
      failed. As in the corrected `Loop`, a result of 0 counts as a failure;
      the code as written calls `send` again (`AsWrittenLoop`). */
  method WriteLoop(len: nat, send: (nat, nat) -> SendResult, call0: nat, waits0: seq<nat>)
      returns (totalSent: nat, retryCount: nat, calls: nat, waits: seq<nat>, fatal: bool)
    requires Honest(send)
    ensures Loop(len, send, call0, 0, 0, waits0)
      == Attempt(totalSent, retryCount, calls, waits, if fatal then Fatal else if totalSent >= len then Complete else GaveUp)
  {
    totalSent := 0;
    retryCount := 0;
    calls := call0;
    waits := waits0;
    fatal := false;
    ghost var a0 := Loop(len, send, call0, 0, 0, waits0);
    while totalSent < len && retryCount < MAX_RETRIES
      invariant totalSent <= len && retryCount <= MAX_RETRIES
      invariant Loop(len, send, calls, totalSent, retryCount, waits) == a0
      decreases len - totalSent, MAX_RETRIES - retryCount
    {
      var sent := send(calls, len - totalSent);
      if sent.Returned? && sent.n > 0 {
        LoopProgress(len, send, calls, totalSent, retryCount, waits, sent.n);
        totalSent := totalSent + sent.n;
        retryCount := 0;
      } else if sent.WouldBlock? {
        LoopRetry(len, send, calls, totalSent, retryCount, waits);
        retryCount := retryCount + 1;
        waits := waits + [RetryDelay(retryCount)];
      } else {
        LoopFail(len, send, calls, totalSent, retryCount, waits);
        calls := calls + 1;
        fatal := true;
        break;
      }
      calls := calls + 1;
    }
    if !fatal {
      LoopDone(len, send, calls, totalSent, retryCount, waits);
    }
  }

  /** The module's static state. */
  class Client {
    var gSock: int
    var wire: seq<byte>
    var closed: seq<int>
    var delays: seq<nat>
    var sendCalls: nat
    var disconnectedCount: nat
    var incompleteCount: nat

    function State(): Conn
      reads this
    {
      Conn(gSock, wire, closed, delays, sendCalls, disconnectedCount, incompleteCount)
    }

    /** `g_sock = -1` (line 17) and the zeroed statics. */
    constructor()
      ensures State() == Conn(-1, [], [], [], 0, 0, 0)
    {
      gSock := -1;
      wire := [];
      closed := [];
      delays := [];
      sendCalls := 0;
      disconnectedCount := 0;
      incompleteCount := 0;
    }

    /** Lines 101-107. */
    method IsConnected() returns (connected: bool)
      ensures connected <==> gSock >= 0
    {
      connected := gSock >= 0;
    }

    /** Lines 190-192. */
    method Attach(s: int)
      modifies this`gSock
      ensures State() == ApplyOp(old(State()), HandleOp.Attach(s))
    {
      gSock := s;
    }

    /** Lines 80-85. */
    method ClearIfStill(s: int)
      modifies this`gSock, this`closed
      ensures State() == ClearIfCurrent(old(State()), s)
    {
      if gSock == s {
        closed := closed + [gSock];
        gSock := -1;
      }
    }

    /** Lines 219-222. */
    method TeardownReceiver(s: int)
      modifies this`gSock, this`closed
      ensures State() == Teardown(old(State()), s)
    {
      closed := closed + [s];
      if gSock == s {
        gSock := -1;
      }
    }

    /** `tcp_client_send_data` (lines 35-99): offers the rest of `data` until
        it is all accepted, `MAX_RETRIES` consecutive would-blocks pass, or a
        send fails; a result of 0 counts as a failure, as in the corrected
        `Loop`, where the code as written calls `send` again. */
    method SendData(data: seq<byte>, send: (nat, nat) -> SendResult)
      requires Honest(send)
      modifies this
      ensures State() == SendSpec(old(State()), data, send)
    {
      ghost var c0 := State();
      var sock := gSock;
      if sock < 0 {
        disconnectedCount := disconnectedCount + 1;
        return;
      }
      var totalSent, retryCount, calls, waits, fatal := WriteLoop(|data|, send, sendCalls, delays);
      ghost var a0 := Loop(|data|, send, c0.calls, 0, 0, c0.delays);
      wire := wire + data[..totalSent];
      delays := waits;
      sendCalls := calls;
      ghost var c1 := c0.(wire := c0.wire + data[..a0.total], delays := a0.delays, calls := a0.calls);
      assert State() == c1;
      if fatal {
        ClearIfStill(sock);
      }
      assert State() == if a0.exit == Fatal then ClearIfCurrent(c1, c0.sock) else c1;
      if totalSent != |data| {
        incompleteCount := incompleteCount + 1;
      }
    }
  }
}
