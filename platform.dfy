/**
 * The helpers of easelog_private.h and the process state they touch:
 * errno, the bytes written to file descriptors, and termination.
 * System calls are replaced by an oracle that says what the k-th call returns.
 */
module Platform {
  import opened Common

  const EINTR: int := 4
  const STDOUT_FILENO: int := 1
  const STDERR_FILENO: int := 2

  /** What the process emits: bytes written to a descriptor, or its exit. */
  datatype Output = FdWrite(fd: int, bytes: string) | Exit(status: nat)

  /** The process-wide state the library reads and changes. */
  class Process {
    var errno: int
    var trace: seq<Output>
    var terminated: bool

    constructor (errno0: int)
      ensures errno == errno0 && trace == [] && !terminated
    {
      errno, trace, terminated := errno0, [], false;
    }
  }

  /** The bytes written to `fd`, in order. */
  function BytesTo(out: seq<Output>, fd: int): string
  {
    if out == [] then ""
    else (if out[0].FdWrite? && out[0].fd == fd then out[0].bytes else "") + BytesTo(out[1..], fd)
  }

  /** The bytes written to a descriptor by two runs one after the other are those of the first, then those of the second. */
  lemma {:induction false} BytesToAppend(a: seq<Output>, b: seq<Output>, fd: int)
    ensures BytesTo(a + b, fd) == BytesTo(a, fd) + BytesTo(b, fd)
  {
    if a != [] {
      var head := if a[0].FdWrite? && a[0].fd == fd then a[0].bytes else "";
      assert (a + b)[0] == a[0] && (a + b)[1..] == a[1..] + b;
      assert BytesTo(a + b, fd) == head + BytesTo(a[1..] + b, fd);
      BytesToAppend(a[1..], b, fd);
      assert BytesTo(a, fd) == head + BytesTo(a[1..], fd);
    } else {
      assert a + b == b;
    }
  }

  // ---------------------------------------------------------------------------
  // Exit status

  /** The status the parent sees for `exit(code)`: the low eight bits. */
  function ExitStatus(code: int): (r: nat)
    ensures r < 256
    ensures 0 <= code < 256 ==> r == code
    ensures (r - code) % 256 == 0
  {
    code % 256
  }

  /** `exit(-1)`, as HandleFatal calls it, is seen as status 255. */
  lemma ExitMinusOne()
    ensures ExitStatus(-1) == 255
  {
  }

  // ---------------------------------------------------------------------------
  // ScopedClearLastError

  /** Saves errno and clears it; `Restore` (the destructor) puts the saved value back. */
  class ScopedClearLastError {
    const proc: Process
    const lastErrno: int

    constructor (p: Process)
      modifies p
      ensures proc == p && lastErrno == old(p.errno)
      ensures p.errno == 0 && p.trace == old(p.trace) && p.terminated == old(p.terminated)
    {
      proc := p;
      lastErrno := p.errno;
      new;
      p.errno := 0;
    }

    method Restore()
      modifies proc
      ensures proc.errno == lastErrno
      ensures proc.trace == old(proc.trace) && proc.terminated == old(proc.terminated)
    {
      proc.errno := lastErrno;
    }
  }

  /**
   * A guarded scope whose body leaves errno at any value `e` (as the library's
   * system calls do): after the scope, errno is what it was before.
   */
  method GuardedScope(p: Process, e: int)
    modifies p
    ensures p.errno == old(p.errno)
    ensures p.trace == old(p.trace) && p.terminated == old(p.terminated)
  {
    var guard := new ScopedClearLastError(p);
    p.errno := e;
    guard.Restore();
  }

  // ---------------------------------------------------------------------------
  // ScopedCleanUp

  /**
   * The deferred actions the library installs: nothing, or the fatal handler
   * (LogMessage::HandleFatal) with the offset where the message body ended
   * and the finished line. The handler does not use the offset.
   */
  datatype Action = Nothing | HandleFatal(stackStart: nat, line: string)

  /** LogMessage::HandleFatal: the line to stdout behind `!!!Self-Abort!!!`, flushed by `endl`, then `exit(-1)`. */
  function FatalOutput(line: string): (r: seq<Output>)
    ensures |r| == 2 && r[0].FdWrite? && r[0].fd == STDOUT_FILENO && r[1] == Exit(255)
    ensures |r[0].bytes| == |line| + 17 && r[0].bytes[..16] == "!!!Self-Abort!!!"
    ensures r[0].bytes[16..|line| + 16] == line && r[0].bytes[|line| + 16] == '\n'
  {
    ExitMinusOne();
    [FdWrite(STDOUT_FILENO, "!!!Self-Abort!!!" + line + "\n"), Exit(ExitStatus(-1))]
  }

  /** Runs `a` on `p`. */
  method Run(p: Process, a: Action)
    modifies p
    ensures a.Nothing? ==> p.trace == old(p.trace) && p.terminated == old(p.terminated)
    ensures a.HandleFatal? ==> p.trace == old(p.trace) + FatalOutput(a.line) && p.terminated
    ensures p.errno == old(p.errno)
  {
    if a.HandleFatal? {
      p.trace := p.trace + FatalOutput(a.line);
      p.terminated := true;
    }
  }

  /** Holds an action and runs it exactly once, in `Destroy` (the destructor). */
  class ScopedCleanUp {
    const proc: Process
    const action: Action
    var runs: nat

    constructor (p: Process, a: Action)
      ensures proc == p && action == a && runs == 0
    {
      proc, action, runs := p, a, 0;
    }

    method Destroy()
      requires runs == 0
      modifies this, proc
      ensures runs == 1
      ensures action.Nothing? ==> proc.trace == old(proc.trace) && proc.terminated == old(proc.terminated)
      ensures action.HandleFatal? ==> proc.trace == old(proc.trace) + FatalOutput(action.line) && proc.terminated
      ensures proc.errno == old(proc.errno)
    {
      Run(proc, action);
      runs := runs + 1;
    }
  }

  // ---------------------------------------------------------------------------
  // System-call oracle and the debug HANDLE_EINTR

  type pos = n: nat | n >= 1 witness 1

  /**
   * The kernel's answer to the k-th call: it accepts at most `limit` of the
   * requested units, or fails with error code `err`.
   */
  datatype Reply = Accepted(limit: pos) | Failed(err: int)

  /** The k-th system call's reply, for every k. */
  type Oracle = nat -> Reply

  /** The call's return value for a request of `request` units: how much was accepted, or -1. */
  function CallResult(r: Reply, request: nat): (v: int)
    ensures r.Failed? <==> v == -1
    ensures r.Accepted? ==> v <= request && (request >= 1 ==> v >= 1)
  {
    if r.Accepted? then Min(r.limit, request) else -1
  }

  /** errno after a call: set by a failure, untouched by a success. */
  function ErrnoAfter(r: Reply, errno: int): int
  {
    if r.Failed? then r.err else errno
  }

  /**
   * The index of the last call the debug HANDLE_EINTR makes, starting with
   * call `k` after `counter` retries: another call only while the result is
   * -1, errno is EINTR and fewer than 100 retries were made.
   */
  function LastCall(oracle: Oracle, k: nat, counter: nat): nat
    requires counter <= 100
    decreases 100 - counter
  {
    if oracle(k) == Failed(EINTR) && counter < 100 then LastCall(oracle, k + 1, counter + 1) else k
  }

  /**
   * At most 101 calls; every call but the last failed with EINTR; the last
   * one did not, unless it was the 101st.
   */
  lemma {:induction false} LastCallBounds(oracle: Oracle, k: nat, counter: nat)
    requires counter <= 100
    ensures var last := LastCall(oracle, k, counter);
      && k <= last <= k + (100 - counter)
      && (forall j :: k <= j < last ==> oracle(j) == Failed(EINTR))
      && (oracle(last) != Failed(EINTR) || last == k + (100 - counter))
    decreases 100 - counter
  {
    if oracle(k) == Failed(EINTR) && counter < 100 {
      LastCallBounds(oracle, k + 1, counter + 1);
    }
  }

  /** A call that does not fail with EINTR is the only call. */
  lemma NoRetryWithoutEintr(oracle: Oracle, k: nat)
    requires oracle(k) != Failed(EINTR)
    ensures LastCall(oracle, k, 0) == k
  {
  }

  /** errno after calls `k` .. `last`, every one before `last` having failed with EINTR. */
  function ErrnoAfterCalls(oracle: Oracle, k: nat, last: nat, errno: int): int
  {
    ErrnoAfter(oracle(last), if last > k then EINTR else errno)
  }

  /** The end of one HANDLE_EINTR: the value assigned to `ret`, the number of the next call, and errno. */
  datatype CallOutcome = CallOutcome(result: int, next: nat, errno: int)

  /** HANDLE_EINTR around a call requesting `request` units, starting with call `k`. */
  function Eintr(oracle: Oracle, k: nat, request: nat, errno: int): (c: CallOutcome)
    ensures k < c.next <= k + 101
    ensures c.result == -1 || 0 <= c.result <= request
    ensures c.result != -1 && request >= 1 ==> c.result >= 1
    ensures c.result == -1 <==> oracle(c.next - 1).Failed?
  {
    var last := LastCall(oracle, k, 0);
    LastCallBounds(oracle, k, 0);
    CallOutcome(CallResult(oracle(last), request), last + 1, ErrnoAfterCalls(oracle, k, last, errno))
  }

  /**
   * HANDLE_EINTR(ret, call) of a debug build, for a call requesting `request`
   * units starting at call number `k`: `ret` is the last call's result and
   * `next` the number of the call after it.
   */
  method HandleEintr(p: Process, oracle: Oracle, k: nat, request: nat) returns (ret: int, next: nat)
    modifies p
    ensures CallOutcome(ret, next, p.errno) == Eintr(oracle, k, request, old(p.errno))
    ensures p.trace == old(p.trace) && p.terminated == old(p.terminated)
  {
    var counter := 0;
    var call := k;
    var result: int;
    while true
      invariant counter <= 100 && call == k + counter
      invariant LastCall(oracle, call, counter) == LastCall(oracle, k, 0)
      invariant counter > 0 ==> p.errno == EINTR
      invariant counter == 0 ==> p.errno == old(p.errno)
      invariant p.trace == old(p.trace) && p.terminated == old(p.terminated)
      decreases 100 - counter
    {
      var reply := oracle(call);
      result := CallResult(reply, request);
      p.errno := ErrnoAfter(reply, p.errno);
      if !(result == -1 && p.errno == EINTR && counter < 100) {
        break;
      }
      counter := counter + 1;
      call := call + 1;
    }
    ret, next := result, call + 1;
  }

  // ---------------------------------------------------------------------------
  // TickCountUs

  const USEC_PER_SEC: nat := 1000000
  const NSEC_PER_USEC: nat := 1000

  /**
   * TickCountUs: 0 when the clock read fails; otherwise `sec * 1000000 +
   * nsec / 1000` in `uint64_t` arithmetic (the cast, the product and the sum
   * each wrap modulo 2^64).
   */
  function TickCountUs(clockOk: bool, sec: int, nsec: int): (r: u64)
  {
    if !clockOk then 0
    else (((sec % U64_MOD) * USEC_PER_SEC) % U64_MOD + (nsec % U64_MOD) / NSEC_PER_USEC) % U64_MOD
  }

  /** A failed clock read gives the reserved value 0. */
  lemma TickFailure(sec: int, nsec: int)
    ensures TickCountUs(false, sec, nsec) == 0
  {
  }

  /** The clock ranges for which no wrap-around happens. */
  predicate NoWrap(sec: int, nsec: int)
  {
    0 <= sec && 0 <= nsec < 1000000000 && sec * USEC_PER_SEC + nsec / NSEC_PER_USEC < U64_MOD
  }

  /** Without wrap-around the tick is the time in whole microseconds, and it splits back into seconds and microseconds. */
  lemma TickExact(sec: int, nsec: int)
    requires NoWrap(sec, nsec)
    ensures TickCountUs(true, sec, nsec) == sec * USEC_PER_SEC + nsec / NSEC_PER_USEC
    ensures TickCountUs(true, sec, nsec) / USEC_PER_SEC == sec
    ensures TickCountUs(true, sec, nsec) % USEC_PER_SEC == nsec / NSEC_PER_USEC
  {
    var us := nsec / NSEC_PER_USEC;
    var whole := sec * USEC_PER_SEC;
    assert 0 <= us < USEC_PER_SEC;
    assert 0 <= whole < U64_MOD && 0 <= sec < U64_MOD;
    assert sec % U64_MOD == sec && nsec % U64_MOD == nsec && whole % U64_MOD == whole;
    assert (whole + us) % U64_MOD == whole + us;
    SplitMicros(sec, us);
  }

  /** Seconds and a sub-second count of microseconds split back out of their total. */
  lemma SplitMicros(sec: nat, us: nat)
    requires us < USEC_PER_SEC
    ensures (sec * USEC_PER_SEC + us) / USEC_PER_SEC == sec
    ensures (sec * USEC_PER_SEC + us) % USEC_PER_SEC == us
  {
  }

  /** Without wrap-around the tick never goes backwards as the clock advances. */
  lemma TickMonotone(sec1: int, nsec1: int, sec2: int, nsec2: int)
    requires NoWrap(sec1, nsec1) && NoWrap(sec2, nsec2)
    requires sec1 < sec2 || (sec1 == sec2 && nsec1 <= nsec2)
    ensures TickCountUs(true, sec1, nsec1) <= TickCountUs(true, sec2, nsec2)
  {
    TickExact(sec1, nsec1);
    TickExact(sec2, nsec2);
    if sec1 < sec2 {
      assert (sec1 + 1) * USEC_PER_SEC <= sec2 * USEC_PER_SEC;
    }
  }
}
