/**
 * The throughput loop of `main`: it sends TOTAL_SIZE bytes over the L2CAP
 * socket in requests of at most CHUNK_SIZE bytes, counts every positive
 * `write` result (short ones included) into `total_sent`, stops at the
 * first result <= 0, and reports progress whenever `total_sent` lands on a
 * multiple of 256 KiB.
 *
 * The socket is an oracle: `write(k, n)` is what the k-th call to `write`
 * (counting from 0) returns when asked to send `n` bytes. Every behaviour
 * of a socket is such a function, since the arguments of the k-th call are
 * themselves fixed by the results of the calls before it.
 */
module TransferLoop {

  const TOTAL_SIZE: nat := 2 * 1024 * 1024
  const CHUNK_SIZE: nat := 512
  const PROGRESS_STEP: nat := 256 * 1024

  type WriteOracle = (nat, nat) -> int

  /** One call to `write`: `total_sent` before it, the byte count asked for, the result. */
  datatype WriteCall = WriteCall(sentBefore: nat, toSend: nat, result: int)

  /**
   * What the loop leaves behind: the final `total_sent`, every `write` call
   * in order, and the `total_sent` value of every progress line printed.
   */
  datatype Report = Report(totalSent: nat, calls: seq<WriteCall>, progress: seq<nat>)

  /** A socket that keeps `write`'s promise never to report more bytes than asked for. */
  ghost predicate HonorsCount(write: WriteOracle)
  {
    forall k, n :: write(k, n) <= n
  }

  /** A socket on which every `write` sends the whole request. */
  ghost predicate WritesComplete(write: WriteOracle)
  {
    forall k, n :: write(k, n) == n
  }

  /** The size of the next request: a whole chunk, or what is left when that is less. */
  function ChunkRequest(total: nat, chunk: nat, sent: nat): (n: nat)
    requires sent < total
    ensures n <= chunk && n <= total - sent
    ensures n == chunk || n == total - sent
  {
    if total - sent < chunk then total - sent else chunk
  }

  /**
   * The rest of the loop from `total_sent == sent`, the next call being the
   * k-th, for a payload of `total` bytes sent in chunks of `chunk` bytes.
   */
  function RunFrom(write: WriteOracle, total: nat, chunk: nat, sent: nat, k: nat): (r: Report)
    ensures sent <= r.totalSent
    ensures r.calls == [] <==> sent >= total
    decreases total - sent
  {
    if sent >= total then Report(sent, [], [])
    else
      var n := ChunkRequest(total, chunk, sent);
      var res := write(k, n);
      if res <= 0 then Report(sent, [WriteCall(sent, n, res)], [])
      else
        var after := sent + res;
        var rest := RunFrom(write, total, chunk, after, k + 1);
        Report(rest.totalSent,
               [WriteCall(sent, n, res)] + rest.calls,
               (if after % PROGRESS_STEP == 0 then [after] else []) + rest.progress)
  }

  /** The whole loop of `main`, from `total_sent == 0`. */
  function Run(write: WriteOracle): Report
  {
    RunFrom(write, TOTAL_SIZE, CHUNK_SIZE, 0, 0)
  }

  /** `done` happened first, then `rest`. */
  function Then(calls: seq<WriteCall>, progress: seq<nat>, rest: Report): Report
  {
    Report(rest.totalSent, calls + rest.calls, progress + rest.progress)
  }

  lemma ThenThen(calls1: seq<WriteCall>, progress1: seq<nat>,
                 calls2: seq<WriteCall>, progress2: seq<nat>, rest: Report)
    ensures Then(calls1, progress1, Then(calls2, progress2, rest))
         == Then(calls1 + calls2, progress1 + progress2, rest)
  {
    // sequence concatenation is associative
  }

  /** The loop itself, with the socket `write` as the oracle. */
  method Transfer(write: WriteOracle) returns (totalSent: nat, calls: seq<WriteCall>, progress: seq<nat>)
    ensures Report(totalSent, calls, progress) == Run(write)
  {
    totalSent, calls, progress := 0, [], [];
    while totalSent < TOTAL_SIZE
      invariant Run(write) == Then(calls, progress, RunFrom(write, TOTAL_SIZE, CHUNK_SIZE, totalSent, |calls|))
      decreases TOTAL_SIZE - totalSent
    {
      ghost var rest := RunFrom(write, TOTAL_SIZE, CHUNK_SIZE, totalSent, |calls|);
      ghost var callsBefore, progressBefore := calls, progress;
      var toSend := CHUNK_SIZE;
      if TOTAL_SIZE - totalSent < CHUNK_SIZE {
        toSend := TOTAL_SIZE - totalSent;
      }
      assert toSend == ChunkRequest(TOTAL_SIZE, CHUNK_SIZE, totalSent);
      var bytesWritten := write(|calls|, toSend);
      var call := WriteCall(totalSent, toSend, bytesWritten);
      calls := calls + [call];
      if bytesWritten <= 0 {
        assert rest == Report(totalSent, [call], []);
        assert Then(callsBefore, progressBefore, rest) == Report(totalSent, calls, progress) by {
          assert progressBefore + [] == progress;
        }
        break;
      }
      totalSent := totalSent + bytesWritten;
      ghost var emitted: seq<nat> := [];
      if totalSent % PROGRESS_STEP == 0 {
        progress := progress + [totalSent];
        emitted := [totalSent];
      }
      assert progress == progressBefore + emitted;
      ghost var next := RunFrom(write, TOTAL_SIZE, CHUNK_SIZE, totalSent, |calls|);
      assert rest == Then([call], emitted, next);
      ThenThen(callsBefore, progressBefore, [call], emitted, next);
    }
    if totalSent >= TOTAL_SIZE {
      assert calls + [] == calls && progress + [] == progress;
    }
  }

  // ---------------------------------------------------------------------
  // What every run of the loop looks like, whatever the socket does
  // ---------------------------------------------------------------------

  /** Bytes `write` reported as sent over a run of calls: each positive result, short ones too. */
  function BytesConfirmed(calls: seq<WriteCall>): nat
  {
    if calls == [] then 0
    else (if calls[0].result > 0 then calls[0].result else 0) + BytesConfirmed(calls[1..])
  }

  /**
   * Every request is a whole chunk or the remainder, whichever is smaller,
   * and is made only while `total_sent < total`.
   */
  ghost predicate RequestsClamped(total: nat, chunk: nat, calls: seq<WriteCall>)
  {
    forall i :: 0 <= i < |calls| ==>
      && calls[i].sentBefore < total
      && calls[i].toSend <= chunk
      && calls[i].toSend <= total - calls[i].sentBefore
      && (calls[i].toSend == chunk || calls[i].toSend == total - calls[i].sentBefore)
  }

  lemma {:induction false} RequestsBounded(write: WriteOracle, total: nat, chunk: nat, sent: nat, k: nat)
    ensures RequestsClamped(total, chunk, RunFrom(write, total, chunk, sent, k).calls)
    decreases total - sent
  {
    if sent < total {
      var n := ChunkRequest(total, chunk, sent);
      if write(k, n) > 0 {
        var r := RunFrom(write, total, chunk, sent, k);
        var rest := RunFrom(write, total, chunk, sent + write(k, n), k + 1);
        RequestsBounded(write, total, chunk, sent + write(k, n), k + 1);
        assert r.calls == [WriteCall(sent, n, write(k, n))] + rest.calls;
      }
    }
  }

  /**
   * The calls form one chain from `sent`: each call but the last got a
   * positive result and the next call starts where it left off, so
   * `total_sent` strictly increases from call to call. Only the last call
   * can have failed, and when it did, `total_sent` is what it was before it.
   */
  lemma {:induction false} CallsChain(write: WriteOracle, total: nat, chunk: nat, sent: nat, k: nat)
    ensures var r := RunFrom(write, total, chunk, sent, k);
      && (|r.calls| == 0 <==> sent >= total)
      && (|r.calls| == 0 ==> r.totalSent == sent)
      && (|r.calls| > 0 ==> r.calls[0].sentBefore == sent)
      && (forall i :: 0 <= i < |r.calls| - 1 ==>
            && r.calls[i].result > 0
            && r.calls[i + 1].sentBefore == r.calls[i].sentBefore + r.calls[i].result)
      && (|r.calls| > 0 && r.calls[|r.calls| - 1].result <= 0 ==>
            r.totalSent == r.calls[|r.calls| - 1].sentBefore)
      && (|r.calls| > 0 && r.calls[|r.calls| - 1].result > 0 ==>
            r.totalSent == r.calls[|r.calls| - 1].sentBefore + r.calls[|r.calls| - 1].result)
    decreases total - sent
  {
    if sent < total {
      var n := ChunkRequest(total, chunk, sent);
      if write(k, n) > 0 {
        CallsChain(write, total, chunk, sent + write(k, n), k + 1);
      }
    }
  }

  /** Call `i` made from the k-th onwards is the oracle's answer to call `k + i`. */
  ghost predicate FollowsOracle(write: WriteOracle, k: nat, calls: seq<WriteCall>)
  {
    forall i :: 0 <= i < |calls| ==> calls[i].result == write(k + i, calls[i].toSend)
  }

  lemma {:induction false} CallsFollowOracle(write: WriteOracle, total: nat, chunk: nat, sent: nat, k: nat)
    ensures FollowsOracle(write, k, RunFrom(write, total, chunk, sent, k).calls)
    decreases total - sent
  {
    if sent < total {
      var n := ChunkRequest(total, chunk, sent);
      if write(k, n) > 0 {
        var r := RunFrom(write, total, chunk, sent, k);
        var rest := RunFrom(write, total, chunk, sent + write(k, n), k + 1);
        CallsFollowOracle(write, total, chunk, sent + write(k, n), k + 1);
        assert r.calls == [WriteCall(sent, n, write(k, n))] + rest.calls;
        forall i | 1 <= i < |r.calls| ensures r.calls[i].result == write(k + i, r.calls[i].toSend) {
          assert r.calls[i] == rest.calls[i - 1];
        }
      }
    }
  }

  /**
   * The loop ends short of `total` exactly when its last `write` failed;
   * otherwise it has sent everything, and no more than that when the socket
   * keeps `write`'s promise. Either way `total_sent` is the starting value
   * plus every positive result.
   */
  lemma {:induction false} RunOutcome(write: WriteOracle, total: nat, chunk: nat, sent: nat, k: nat)
    ensures var r := RunFrom(write, total, chunk, sent, k);
      && r.totalSent == sent + BytesConfirmed(r.calls)
      && (r.totalSent < total <==> |r.calls| > 0 && r.calls[|r.calls| - 1].result <= 0)
      && (HonorsCount(write) && sent <= total ==> r.totalSent <= total)
    decreases total - sent
  {
    var r := RunFrom(write, total, chunk, sent, k);
    if sent < total {
      var n := ChunkRequest(total, chunk, sent);
      if write(k, n) > 0 {
        var rest := RunFrom(write, total, chunk, sent + write(k, n), k + 1);
        RunOutcome(write, total, chunk, sent + write(k, n), k + 1);
        assert r.calls[1..] == rest.calls;
        if |rest.calls| > 0 {
          assert r.calls[|r.calls| - 1] == rest.calls[|rest.calls| - 1];
        }
      } else {
        assert r.calls[1..] == [];
      }
    }
  }

  /** The `total_sent` values left by the calls that sent something. */
  ghost function Reached(calls: seq<WriteCall>): set<int>
  {
    set i | 0 <= i < |calls| && calls[i].result > 0 :: calls[i].sentBefore + calls[i].result
  }

  /**
   * A progress line is printed for a value exactly when some `write` left
   * `total_sent` at it and it is a multiple of 256 KiB; the lines come out
   * in strictly increasing order, all above the starting value.
   */
  ghost predicate ProgressMatches(progress: seq<nat>, calls: seq<WriteCall>)
  {
    forall x :: x in progress <==> x % PROGRESS_STEP == 0 && x in Reached(calls)
  }

  ghost predicate IncreasingAbove(progress: seq<nat>, sent: nat)
  {
    && (forall i :: 0 <= i < |progress| ==> progress[i] > sent)
    && (forall i, j :: 0 <= i < j < |progress| ==> progress[i] < progress[j])
  }

  lemma ReachedCons(c: WriteCall, rest: seq<WriteCall>)
    requires c.result > 0
    ensures Reached([c] + rest) == {c.sentBefore + c.result} + Reached(rest)
  {
    var calls := [c] + rest;
    forall x | x in Reached(calls) ensures x in {c.sentBefore + c.result} + Reached(rest) {
      var i :| 0 <= i < |calls| && calls[i].result > 0 && x == calls[i].sentBefore + calls[i].result;
      if i > 0 {
        assert calls[i] == rest[i - 1];
      }
    }
    forall x | x in Reached(rest) ensures x in Reached(calls) {
      var i :| 0 <= i < |rest| && rest[i].result > 0 && x == rest[i].sentBefore + rest[i].result;
      assert rest[i] == calls[i + 1];
    }
  }

  lemma {:induction false} ProgressLines(write: WriteOracle, total: nat, chunk: nat, sent: nat, k: nat)
    ensures ProgressMatches(RunFrom(write, total, chunk, sent, k).progress, RunFrom(write, total, chunk, sent, k).calls)
    ensures IncreasingAbove(RunFrom(write, total, chunk, sent, k).progress, sent)
    decreases total - sent
  {
    var r := RunFrom(write, total, chunk, sent, k);
    if sent < total {
      var n := ChunkRequest(total, chunk, sent);
      var res := write(k, n);
      if res > 0 {
        var after := sent + res;
        var rest := RunFrom(write, total, chunk, after, k + 1);
        ProgressLines(write, total, chunk, after, k + 1);
        var emitted := if after % PROGRESS_STEP == 0 then [after] else [];
        assert r.calls == [WriteCall(sent, n, res)] + rest.calls;
        assert r.progress == emitted + rest.progress;
        ReachedCons(WriteCall(sent, n, res), rest.calls);
        forall i, j | 0 <= i < j < |r.progress| ensures r.progress[i] < r.progress[j] {
          if |emitted| == 1 && i == 0 {
            assert r.progress[j] == rest.progress[j - 1];
          }
        }
      } else {
        assert Reached(r.calls) == {};
      }
    }
  }

  // ---------------------------------------------------------------------
  // Sockets that behave: complete writes, and short but positive writes
  // ---------------------------------------------------------------------

  /** How many chunks a payload of `m` bytes takes: ceil(m / chunk). */
  function CeilDiv(m: nat, chunk: nat): nat
    requires chunk > 0
  {
    (m + chunk - 1) / chunk
  }

  /** The size of the last chunk of `m` bytes: the remainder when there is one, else a whole chunk. */
  function FinalChunk(m: nat, chunk: nat): nat
    requires chunk > 0
  {
    if m % chunk == 0 then chunk else m % chunk
  }

  /** Taking one whole chunk off a payload longer than a chunk. */
  lemma ChunkOff(m: nat, chunk: nat)
    requires 0 < chunk < m
    ensures CeilDiv(m, chunk) == 1 + CeilDiv(m - chunk, chunk)
    ensures FinalChunk(m, chunk) == FinalChunk(m - chunk, chunk)
  {
    var q, r := (m - chunk) / chunk, (m - chunk) % chunk;
    DivOf(m, chunk, q + 1, r);
    var q', r' := (m - 1) / chunk, (m - 1) % chunk;
    DivOf(m + chunk - 1, chunk, q' + 1, r');
  }

  /** Division and remainder are fixed by any decomposition with a remainder in range. */
  lemma DivOf(x: nat, d: nat, q: int, r: int)
    requires d > 0 && 0 <= r < d && x == q * d + r
    ensures x / d == q && x % d == r
  {
    var q0, r0 := x / d, x % d;
    assert (q0 - q) * d == r - r0 by {
      assert (q0 - q) * d == q0 * d - q * d;
    }
    if q0 > q {
      MulAtLeast(q0 - q, d);
    } else if q0 < q {
      MulAtLeast(q - q0, d);
    }
  }

  lemma MulAtLeast(k: int, d: int)
    requires k >= 1 && d > 0
    ensures k * d >= d
  {
    // k * d - d == (k - 1) * d, and both factors of that are non-negative
  }

  /**
   * On a socket where every write is complete, call `i` starts at
   * `sent + i * chunk`, sends what it asked for, and every call but the
   * last asks for a whole chunk.
   */
  ghost predicate WholeChunks(chunk: nat, sent: nat, calls: seq<WriteCall>)
  {
    forall i :: 0 <= i < |calls| ==>
      && calls[i].sentBefore == sent + i * chunk
      && calls[i].result == calls[i].toSend
      && (i < |calls| - 1 ==> calls[i].toSend == chunk)
  }

  /** With complete writes, call `i` starts at `i` whole chunks in and sends all it asks for. */
  lemma {:induction false} CompleteWritesWholeChunks(write: WriteOracle, total: nat, chunk: nat, sent: nat, k: nat)
    requires WritesComplete(write) && chunk > 0
    ensures WholeChunks(chunk, sent, RunFrom(write, total, chunk, sent, k).calls)
    decreases total - sent
  {
    if sent < total {
      var r := RunFrom(write, total, chunk, sent, k);
      var n := ChunkRequest(total, chunk, sent);
      assert write(k, n) == n;
      var rest := RunFrom(write, total, chunk, sent + n, k + 1);
      assert r.calls == [WriteCall(sent, n, n)] + rest.calls;
      CompleteWritesWholeChunks(write, total, chunk, sent + n, k + 1);
      forall i | 1 <= i < |r.calls|
        ensures r.calls[i].sentBefore == sent + i * chunk
        ensures r.calls[i].result == r.calls[i].toSend
        ensures i < |r.calls| - 1 ==> r.calls[i].toSend == chunk
      {
        assert r.calls[i] == rest.calls[i - 1];
        assert (i - 1) * chunk + chunk == i * chunk;
      }
      if |r.calls| > 1 {
        // a call follows the first, so the first did not reach the end: it was a whole chunk
        assert n == chunk;
      }
    }
  }

  /**
   * With complete writes the loop sends exactly the payload, in
   * ceil(m / chunk) writes for m bytes, the last of which is the remainder
   * when there is one.
   */
  lemma {:induction false} CompleteWritesSendAll(write: WriteOracle, total: nat, chunk: nat, sent: nat, k: nat)
    requires WritesComplete(write) && chunk > 0 && sent <= total
    ensures RunFrom(write, total, chunk, sent, k).totalSent == total
    ensures |RunFrom(write, total, chunk, sent, k).calls| == CeilDiv(total - sent, chunk)
    ensures sent < total ==>
      RunFrom(write, total, chunk, sent, k).calls[|RunFrom(write, total, chunk, sent, k).calls| - 1].toSend
        == FinalChunk(total - sent, chunk)
    decreases total - sent
  {
    var r := RunFrom(write, total, chunk, sent, k);
    var m := total - sent;
    if sent == total {
      DivOf(chunk - 1, chunk, 0, chunk - 1);
    } else {
      var n := ChunkRequest(total, chunk, sent);
      assert write(k, n) == n;
      var rest := RunFrom(write, total, chunk, sent + n, k + 1);
      assert r.calls == [WriteCall(sent, n, n)] + rest.calls;
      CompleteWritesSendAll(write, total, chunk, sent + n, k + 1);
      if m <= chunk {
        DivOf(m + chunk - 1, chunk, 1, m - 1);
        if m < chunk {
          DivOf(m, chunk, 0, m);
        } else {
          DivOf(m, chunk, 1, 0);
        }
      } else {
        ChunkOff(m, chunk);
      }
    }
  }

  /** The 2 MiB payload goes out in exactly 4096 full 512-byte writes when every write is complete. */
  lemma FullPayloadIn4096Writes(write: WriteOracle)
    requires WritesComplete(write)
    ensures Run(write).totalSent == TOTAL_SIZE
    ensures |Run(write).calls| == 4096
    ensures forall i :: 0 <= i < |Run(write).calls| ==>
      Run(write).calls[i].toSend == CHUNK_SIZE && Run(write).calls[i].result == CHUNK_SIZE
  {
    CompleteWritesSendAll(write, TOTAL_SIZE, CHUNK_SIZE, 0, 0);
    CompleteWritesWholeChunks(write, TOTAL_SIZE, CHUNK_SIZE, 0, 0);
    DivOf(TOTAL_SIZE + CHUNK_SIZE - 1, CHUNK_SIZE, 4096, CHUNK_SIZE - 1);
    DivOf(TOTAL_SIZE, CHUNK_SIZE, 4096, 0);
  }

  /** A payload smaller than a chunk goes out in one write of exactly its size. */
  lemma SmallPayloadInOneWrite(write: WriteOracle, total: nat, chunk: nat)
    requires WritesComplete(write) && 0 < total < chunk
    ensures RunFrom(write, total, chunk, 0, 0) == Report(total, [WriteCall(0, total, total)], if total % PROGRESS_STEP == 0 then [total] else [])
  {
    assert write(0, total) == total;
  }

  /**
   * With complete writes, progress lines come out at 256 KiB, 512 KiB, ...
   * up to 2 MiB: exactly at the positive multiples of 256 KiB up to the total.
   */
  lemma ProgressEvery256KiB(write: WriteOracle)
    requires WritesComplete(write)
    ensures forall x :: x in Run(write).progress <==> 0 < x <= TOTAL_SIZE && x % PROGRESS_STEP == 0
  {
    var r := Run(write);
    FullPayloadIn4096Writes(write);
    CompleteWritesWholeChunks(write, TOTAL_SIZE, CHUNK_SIZE, 0, 0);
    ProgressLines(write, TOTAL_SIZE, CHUNK_SIZE, 0, 0);
    forall x | 0 < x <= TOTAL_SIZE && x % PROGRESS_STEP == 0 ensures x in Reached(r.calls) {
      var q := x / PROGRESS_STEP;
      assert x == PROGRESS_STEP * q;
      var i := 512 * q - 1;
      assert r.calls[i].sentBefore + r.calls[i].result == x;
    }
    forall x | x in Reached(r.calls) ensures 0 < x <= TOTAL_SIZE {
      var i :| 0 <= i < |r.calls| && r.calls[i].result > 0 && x == r.calls[i].sentBefore + r.calls[i].result;
    }
  }

  /**
   * Short writes do not lose data: if every write sends at least one byte
   * and no more than asked, the loop still ends with the whole payload sent,
   * after at least ceil(total / chunk) calls.
   */
  lemma {:induction false} ShortWritesStillSendAll(write: WriteOracle, total: nat, chunk: nat)
    requires chunk > 0
    requires forall k, n :: write(k, n) <= n && (1 <= n ==> 1 <= write(k, n))
    ensures RunFrom(write, total, chunk, 0, 0).totalSent == total
    ensures |RunFrom(write, total, chunk, 0, 0).calls| >= CeilDiv(total, chunk)
  {
    var r := RunFrom(write, total, chunk, 0, 0);
    RunOutcome(write, total, chunk, 0, 0);
    RequestsBounded(write, total, chunk, 0, 0);
    CallsFollowOracle(write, total, chunk, 0, 0);
    if |r.calls| > 0 {
      var last := r.calls[|r.calls| - 1];
      assert last.toSend >= 1;
      assert last.result == write(|r.calls| - 1, last.toSend);
    }
    forall i | 0 <= i < |r.calls| ensures r.calls[i].result <= chunk {
      assert r.calls[i].result == write(i, r.calls[i].toSend);
    }
    ConfirmedAtMost(r.calls, chunk);
    CeilDivAtMost(total, chunk, |r.calls|);
  }

  /** No call reports more than `chunk` bytes, so `c` calls confirm at most `c * chunk`. */
  lemma {:induction false} ConfirmedAtMost(calls: seq<WriteCall>, chunk: nat)
    requires forall i :: 0 <= i < |calls| ==> calls[i].result <= chunk
    ensures BytesConfirmed(calls) <= |calls| * chunk
  {
    if calls != [] {
      ConfirmedAtMost(calls[1..], chunk);
      assert |calls| * chunk == chunk + (|calls| - 1) * chunk;
    }
  }

  /** A payload that fits in `c` chunks needs at most `c` of them. */
  lemma CeilDivAtMost(m: nat, chunk: nat, c: nat)
    requires chunk > 0 && m <= c * chunk
    ensures CeilDiv(m, chunk) <= c
  {
    var q := CeilDiv(m, chunk);
    assert q * chunk <= m + chunk - 1;
    if q > c {
      MulAtLeast(q - c, chunk);
    }
  }
}
