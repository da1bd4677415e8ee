/**
 * The lifecycle of one log record (class LogMessage of easelog.h and
 * easelog.cpp): construction writes the header into the record's stream,
 * the caller streams the message, and Flush (run by the destructor) emits
 * the line to stderr when the gate allows and ends the process on FATAL.
 */
module Record {
  import opened Common
  import opened Settings
  import opened Prefix
  import opened Platform
  import opened Sink
  import opened Logging

  /** What the OS reports while a header is built: program name, ids, thread name and the monotonic clock. */
  datatype Environment = Environment(
    program: Option<string>,
    pid: int,
    threadName: string,
    tid: int,
    clockOk: bool,
    sec: int,
    nsec: int)

  /** The header inputs for a record at file/func/line in environment `env`. */
  function InputsFor(env: Environment, file: string, func: string, line: i32): HeaderInputs
  {
    HeaderInputs(env.program, env.pid, env.threadName, env.tid,
                 TickCountUs(env.clockOk, env.sec, env.nsec), file, func, line)
  }

  /** `strrchr(path, '/') + 1`: the part of the path after its last '/'. */
  function Basename(path: string): (r: string)
    requires '/' in path
    ensures |r| < |path| && path[|path| - |r| - 1] == '/' && path[|path| - |r|..] == r
    ensures '/' !in r
    decreases |path|
  {
    if path[|path| - 1] == '/' then ""
    else
      var front := path[..|path| - 1];
      assert '/' in front by {
        var i :| 0 <= i < |path| && path[i] == '/';
        assert i < |path| - 1 && front[i] == '/';
      }
      Basename(front) + [path[|path| - 1]]
  }

  /** The text `CHECK` failures put right after the header. */
  function CheckPreamble(condition: string): string
  {
    "Check failed: " + condition + ". "
  }

  /** What the stderr branch of Flush emits: the timestamp, then the line, each through WriteToFd. */
  datatype Emission = Emission(out: seq<Output>, next: nat, errno: int)

  /**
   * The stderr output of Flush when `enabled` (the stderr gate), starting
   * at call `k` with errno cleared by the guard.
   */
  function StderrEmission(enabled: bool, timestamp: string, line: string, oracle: Oracle, k: nat): Emission
  {
    if !enabled then Emission([], k, 0)
    else
      var a := Outcome(oracle, STDERR_FILENO, timestamp, 0, k, 0);
      var b := Outcome(oracle, STDERR_FILENO, line, 0, a.next, a.errno);
      Emission(a.out + b.out, b.next, b.errno)
  }

  class LogMessage {
    /** stream_: the text built so far. */
    var stream: string
    /** message_start_: where the message begins, past the header. */
    var messageStart: nat
    /** file_: the basename of the source file. */
    var file: string
    const func: string
    const line: i32
    const severity: i32

    /** LogMessage(file, func, line, severity), used by LOG. */
    constructor (g: Logger, p: Process, env: Environment, path: string, func: string, line: i32, severity: i32)
      requires '/' in path && g.Valid()
      modifies g, p
      ensures this.file == Basename(path) && this.func == func && this.line == line && this.severity == severity
      ensures stream == Header(g.settings, severity, InputsFor(env, Basename(path), func, line))
      ensures messageStart == |stream| && messageStart >= 3 && stream[messageStart - 3..] == ")] "
      ensures g.Valid() && g.logInit && g.settings == old(g.settings)
      ensures old(g.logInit) ==> g.queues == old(g.queues)
      ensures p.errno == old(p.errno) && p.trace == old(p.trace) && p.terminated == old(p.terminated)
    {
      this.file := path;
      this.func := func;
      this.line := line;
      this.severity := severity;
      stream := "";
      messageStart := 0;
      new;
      Init(g, p, env, path);
    }

    /** LogMessage(file, func, line, condition), used by CHECK: severity FATAL and the failed condition after the header. */
    constructor Check(g: Logger, p: Process, env: Environment, path: string, func: string, line: i32, condition: string)
      requires '/' in path && g.Valid()
      modifies g, p
      ensures this.file == Basename(path) && this.func == func && this.line == line && severity == LOGGING_FATAL
      ensures messageStart <= |stream|
      ensures stream[..messageStart] == Header(g.settings, LOGGING_FATAL, InputsFor(env, Basename(path), func, line))
      ensures stream[messageStart..] == CheckPreamble(condition)
      ensures g.Valid() && g.logInit && g.settings == old(g.settings)
      ensures old(g.logInit) ==> g.queues == old(g.queues)
      ensures p.errno == old(p.errno) && p.trace == old(p.trace) && p.terminated == old(p.terminated)
    {
      this.file := path;
      this.func := func;
      this.line := line;
      this.severity := LOGGING_FATAL;
      stream := "";
      messageStart := 0;
      new;
      Init(g, p, env, path);
      var header := stream;
      Append(CheckPreamble(condition));
      assert stream[..messageStart] == header && stream[messageStart..] == CheckPreamble(condition);
    }

    /**
     * LogMessage::Init on a fresh record: initialises the queues on the first
     * call, trims the path to its basename, writes the header and records
     * where the message starts, all with errno preserved.
     */
    method Init(g: Logger, p: Process, env: Environment, path: string)
      requires '/' in path && g.Valid() && stream == ""
      modifies this, g, p
      ensures file == Basename(path)
      ensures stream == Header(g.settings, severity, InputsFor(env, file, func, line))
      ensures messageStart == |stream| && messageStart >= 3 && stream[messageStart - 3..] == ")] "
      ensures g.Valid() && g.logInit && g.settings == old(g.settings)
      ensures old(g.logInit) ==> g.queues == old(g.queues)
      ensures p.errno == old(p.errno) && p.trace == old(p.trace) && p.terminated == old(p.terminated)
    {
      g.InitQueuesOnce();
      var guard := new ScopedClearLastError(p);
      WriteHeader(g.settings, env, TickCountUs(env.clockOk, env.sec, env.nsec), path);
      guard.Restore();
    }

    /**
     * The body of Init between the errno guard's two ends: basename, header
     * (with `tick` read from the monotonic clock), message start.
     */
    method WriteHeader(s: LoggingSettings, env: Environment, tick: u64, path: string)
      requires '/' in path && stream == ""
      modifies this
      ensures file == Basename(path)
      ensures stream == Header(s, severity, HeaderInputs(env.program, env.pid, env.threadName, env.tid, tick, file, func, line))
      ensures messageStart == |stream| && messageStart >= 3 && stream[messageStart - 3..] == ")] "
    {
      file := Basename(path);
      var h := HeaderInputs(env.program, env.pid, env.threadName, env.tid, tick, file, func, line);
      var header := Header(s, severity, h);
      HeaderEndsWithLocation(s, severity, h);
      stream := stream + header;
      assert stream == header;
      messageStart := |stream|;
    }

    /** `stream() << text`: the text is appended to the record. */
    method Append(text: string)
      modifies this
      ensures stream == old(stream) + text
      ensures messageStart == old(messageStart) && file == old(file)
    {
      stream := stream + text;
    }

    /**
     * Flush (the destructor): append one newline; if the stderr gate allows,
     * write the timestamp and then the line to stderr; then the cleanup guard
     * runs the fatal handler for FATAL records, which prints the line behind
     * `!!!Self-Abort!!!` and exits before errno can be restored. Otherwise
     * errno is back to its value on entry. `next` is the next system call.
     */
    method Flush(g: Logger, p: Process, time: BrokenDownTime, oracle: Oracle, k: nat) returns (next: nat)
      requires !p.terminated
      modifies this, p
      ensures stream == old(stream) + "\n"
      ensures messageStart == old(messageStart) && file == old(file)
      ensures var e := StderrEmission(ShouldLogToStderr(g.settings, severity),
                                      TimestampAsWritten(g.settings.timestamp, time), stream, oracle, k);
        next == e.next &&
        if severity == LOGGING_FATAL then
          p.trace == old(p.trace) + e.out + FatalOutput(stream) && p.errno == e.errno && p.terminated
        else
          p.trace == old(p.trace) + e.out && p.errno == old(p.errno) && !p.terminated
    {
      var guard := new ScopedClearLastError(p);
      var stackStart := |stream|;
      stream := stream + "\n";
      var newline := stream;
      var cleanup := new ScopedCleanUp(p, if severity == LOGGING_FATAL then HandleFatal(stackStart, newline) else Nothing);
      next := EmitToStderr(p, ShouldLogToStderr(g.settings, severity), TimestampAsWritten(g.settings.timestamp, time),
                           newline, oracle, k);
      cleanup.Destroy();
      if !p.terminated {
        guard.Restore();
      }
    }
  }

  /**
   * The stderr branch of Flush, entered with errno cleared: when `enabled`,
   * WriteToFd of the timestamp and then of the line.
   */
  method EmitToStderr(p: Process, enabled: bool, timestamp: string, line: string, oracle: Oracle, k: nat)
    returns (next: nat)
    requires p.errno == 0
    modifies p
    ensures var e := StderrEmission(enabled, timestamp, line, oracle, k);
      next == e.next && p.trace == old(p.trace) + e.out && p.errno == e.errno
    ensures p.terminated == old(p.terminated)
  {
    next := k;
    if enabled {
      next := WriteBoth(p, timestamp, line, oracle, k);
    }
  }

  /** WriteToFd of the timestamp, then WriteToFd of the line from the call where the first stopped. */
  method WriteBoth(p: Process, timestamp: string, line: string, oracle: Oracle, k: nat) returns (next: nat)
    modifies p
    ensures var a := Outcome(oracle, STDERR_FILENO, timestamp, 0, k, old(p.errno));
      var b := Outcome(oracle, STDERR_FILENO, line, 0, a.next, a.errno);
      next == b.next && p.trace == old(p.trace) + (a.out + b.out) && p.errno == b.errno
    ensures p.terminated == old(p.terminated)
  {
    var _, n1 := WriteToFd(p, STDERR_FILENO, timestamp, oracle, k);
    var _, n2 := WriteToFd(p, STDERR_FILENO, line, oracle, n1);
    next := n2;
  }

  // ---------------------------------------------------------------------------
  // Lemmas

  /** Any suffix of a path that follows a '/' and holds none is its basename. */
  lemma {:induction false} BasenameUnique(path: string, r: string)
    requires |r| < |path| && path[|path| - |r| - 1] == '/' && path[|path| - |r|..] == r && '/' !in r
    ensures '/' in path && Basename(path) == r
    decreases |path|
  {
    assert path[|path| - |r| - 1] == '/';
    if r != [] {
      var front := path[..|path| - 1];
      var r' := r[..|r| - 1];
      assert front[|front| - |r'| - 1] == '/';
      assert front[|front| - |r'|..] == r' by {
        assert front[|front| - |r'|..] == path[|path| - |r|..][..|r| - 1];
      }
      assert '/' !in r' by {
        forall i | 0 <= i < |r'| ensures r'[i] != '/' {
          assert r'[i] == r[i];
        }
      }
      BasenameUnique(front, r');
      assert path[|path| - 1] == r[|r| - 1] != '/';
      assert r == r' + [r[|r| - 1]];
    }
  }

  /** A path whose directory part ends in '/' has the rest as its basename. */
  lemma BasenameOfJoin(dir: string, name: string)
    requires '/' !in name
    ensures Basename(dir + "/" + name) == name
  {
    var path := dir + "/" + name;
    assert path[|path| - |name| - 1] == '/';
    assert path[|path| - |name|..] == name;
    BasenameUnique(path, name);
  }

  /**
   * What reaches stderr in Flush: a prefix of the timestamp followed by a
   * prefix of the line, in writes to stderr only; both complete when no
   * call fails; nothing when the gate is closed.
   */
  lemma EmissionBytes(enabled: bool, timestamp: string, line: string, oracle: Oracle, k: nat)
    ensures var e := StderrEmission(enabled, timestamp, line, oracle, k);
      && AllTo(e.out, STDERR_FILENO)
      && (exists i, j :: 0 <= i <= |timestamp| && 0 <= j <= |line| &&
            BytesTo(e.out, STDERR_FILENO) == timestamp[..i] + line[..j])
      && (!enabled ==> e.out == [])
  {
    var e := StderrEmission(enabled, timestamp, line, oracle, k);
    if enabled {
      var a := Outcome(oracle, STDERR_FILENO, timestamp, 0, k, 0);
      var b := Outcome(oracle, STDERR_FILENO, line, 0, a.next, a.errno);
      OutcomeBytes(oracle, STDERR_FILENO, timestamp, 0, k, 0);
      OutcomeBytes(oracle, STDERR_FILENO, line, 0, a.next, a.errno);
      OutcomeWrites(oracle, STDERR_FILENO, timestamp, 0, k, 0);
      OutcomeWrites(oracle, STDERR_FILENO, line, 0, a.next, a.errno);
      AllToAppend(a.out, b.out, STDERR_FILENO);
      BytesToAppend(a.out, b.out, STDERR_FILENO);
      assert timestamp[0..a.written] == timestamp[..a.written];
      assert line[0..b.written] == line[..b.written];
      assert BytesTo(e.out, STDERR_FILENO) == timestamp[..a.written] + line[..b.written];
    } else {
      assert BytesTo(e.out, STDERR_FILENO) == timestamp[..0] + line[..0];
    }
  }

  /** When no system call from `k` on fails, stderr receives the whole timestamp and then the whole line. */
  lemma EmissionComplete(timestamp: string, line: string, oracle: Oracle, k: nat)
    requires forall j :: j >= k ==> oracle(j).Accepted?
    ensures BytesTo(StderrEmission(true, timestamp, line, oracle, k).out, STDERR_FILENO) == timestamp + line
  {
    var a := Outcome(oracle, STDERR_FILENO, timestamp, 0, k, 0);
    NoFailureCompletes(oracle, STDERR_FILENO, timestamp, 0, k, 0);
    OutcomeBytes(oracle, STDERR_FILENO, timestamp, 0, k, 0);
    OutcomeBounds(oracle, STDERR_FILENO, timestamp, 0, k, 0);
    var b := Outcome(oracle, STDERR_FILENO, line, 0, a.next, a.errno);
    NoFailureCompletes(oracle, STDERR_FILENO, line, 0, a.next, a.errno);
    OutcomeBytes(oracle, STDERR_FILENO, line, 0, a.next, a.errno);
    BytesToAppend(a.out, b.out, STDERR_FILENO);
    assert timestamp[0..|timestamp|] == timestamp;
    assert line[0..|line|] == line;
  }

  /** A FATAL record's Flush ends the trace with the self-abort line on stdout and exit status 255. */
  lemma FatalEnding(before: seq<Output>, e: Emission, line: string)
    ensures var t := before + e.out + FatalOutput(line);
      |t| >= 2 && t[|t| - 1] == Exit(255) && t[|t| - 2].FdWrite? && t[|t| - 2].fd == STDOUT_FILENO
      && t[|t| - 2].bytes == "!!!Self-Abort!!!" + line + "\n"
  {
  }
}
