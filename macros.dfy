/**
 * The logging macros of easelog.h, as the order of evaluation they cause:
 * LOG_IS_ON(sev) is the creation gate; LAZY_STREAM(stream, cond) evaluates
 * the stream expression (build a LogMessage, stream the arguments into it,
 * flush it when the temporary dies) only when the condition holds; LOG_IF
 * adds a user condition behind a short-circuit `&&`.
 */
module Macros {
  import opened Common
  import opened Settings

  /** The observable steps of one logging statement. */
  datatype Event =
    | ConditionEvaluated          // the user condition of LOG_IF
    | RecordBuilt                 // a LogMessage is constructed
    | ArgumentEvaluated(index: nat) // the index-th `<<` operand
    | RecordFlushed               // the temporary's destructor runs Flush

  /** LOG_IS_ON(severity) */
  function LogIsOn(s: LoggingSettings, severity: i32): bool
  {
    ShouldCreateLogMessage(s, severity)
  }

  /** The operands `a0 << a1 << ...`, evaluated left to right. */
  function Arguments(n: nat): (r: seq<Event>)
    ensures |r| == n && forall i :: 0 <= i < n ==> r[i] == ArgumentEvaluated(i)
  {
    if n == 0 then [] else Arguments(n - 1) + [ArgumentEvaluated(n - 1)]
  }

  /** LOG_STREAM(severity) << args: build the record, evaluate the operands, flush at the end of the statement. */
  function LogStream(args: nat): seq<Event>
  {
    [RecordBuilt] + Arguments(args) + [RecordFlushed]
  }

  /** LAZY_STREAM(stream, condition): the stream's steps if the condition holds, none otherwise. */
  function LazyStream(condition: bool, stream: seq<Event>): seq<Event>
  {
    if !condition then [] else stream
  }

  /** LOG(severity) << args */
  function Log(s: LoggingSettings, severity: i32, args: nat): seq<Event>
  {
    LazyStream(LogIsOn(s, severity), LogStream(args))
  }

  /** LOG_IF(severity, condition) << args: the condition is reached only through `LOG_IS_ON(severity) && condition`. */
  function LogIf(s: LoggingSettings, severity: i32, condition: bool, args: nat): seq<Event>
  {
    var gate := LogIsOn(s, severity);
    (if gate then [ConditionEvaluated] else []) + LazyStream(gate && condition, LogStream(args))
  }

  /** How many operand evaluations a sequence of steps holds. */
  function ArgumentCount(events: seq<Event>): nat
  {
    if events == [] then 0
    else (if events[0].ArgumentEvaluated? then 1 else 0) + ArgumentCount(events[1..])
  }

  // ---------------------------------------------------------------------------
  // Lemmas

  lemma {:induction false} ArgumentCountAppend(a: seq<Event>, b: seq<Event>)
    ensures ArgumentCount(a + b) == ArgumentCount(a) + ArgumentCount(b)
  {
    if a != [] {
      assert (a + b)[1..] == a[1..] + b;
      ArgumentCountAppend(a[1..], b);
    } else {
      assert a + b == b;
    }
  }

  lemma {:induction false} ArgumentsCount(n: nat)
    ensures ArgumentCount(Arguments(n)) == n
  {
    if n > 0 {
      ArgumentsCount(n - 1);
      ArgumentCountAppend(Arguments(n - 1), [ArgumentEvaluated(n - 1)]);
      assert [ArgumentEvaluated(n - 1)][1..] == [];
    }
  }

  /** A streamed record is built first, flushed last, and evaluates each operand once, in order, between the two. */
  lemma StreamOrder(args: nat)
    ensures var r := LogStream(args);
      |r| == args + 2 && r[0] == RecordBuilt && r[|r| - 1] == RecordFlushed
      && (forall i :: 0 <= i < args ==> r[i + 1] == ArgumentEvaluated(i))
      && ArgumentCount(r) == args
  {
    var r := LogStream(args);
    ArgumentsCount(args);
    ArgumentCountAppend([RecordBuilt], Arguments(args));
    ArgumentCountAppend([RecordBuilt] + Arguments(args), [RecordFlushed]);
    assert [RecordBuilt][1..] == [] && [RecordFlushed][1..] == [];
  }

  /** LOG evaluates its operands, and builds a record, exactly when LOG_IS_ON holds. */
  lemma LogLazy(s: LoggingSettings, severity: i32, args: nat)
    ensures RecordBuilt in Log(s, severity, args) <==> LogIsOn(s, severity)
    ensures ArgumentCount(Log(s, severity, args)) == if LogIsOn(s, severity) then args else 0
  {
    StreamOrder(args);
  }

  /**
   * LOG_IF evaluates the user condition exactly when the gate is open, and
   * builds a record and evaluates its operands exactly when the gate is open
   * and the condition holds.
   */
  lemma LogIfLazy(s: LoggingSettings, severity: i32, condition: bool, args: nat)
    ensures ConditionEvaluated in LogIf(s, severity, condition, args) <==> LogIsOn(s, severity)
    ensures RecordBuilt in LogIf(s, severity, condition, args) <==> LogIsOn(s, severity) && condition
    ensures ArgumentCount(LogIf(s, severity, condition, args)) ==
      if LogIsOn(s, severity) && condition then args else 0
  {
    var gate := LogIsOn(s, severity);
    var head: seq<Event> := if gate then [ConditionEvaluated] else [];
    var tail := LazyStream(gate && condition, LogStream(args));
    StreamOrder(args);
    ArgumentCountAppend(head, tail);
    assert ArgumentCount(head) == 0 by {
      if gate {
        assert head[1..] == [];
      }
    }
    assert ConditionEvaluated !in tail;
  }

  /** LOG_IF with a true condition does what LOG does, after evaluating the condition. */
  lemma LogIfTrueIsLog(s: LoggingSettings, severity: i32, args: nat)
    ensures LogIf(s, severity, true, args) ==
      (if LogIsOn(s, severity) then [ConditionEvaluated] else []) + Log(s, severity, args)
  {
  }

  /**
   * The BasicLoggingLog test: after SetMinLogLevel(INFO) on the defaults,
   * LOG(INFO), LOG_IF(INFO, true) and LOG_IF(INFO, false), each streaming
   * one mock call, make the mock run exactly twice.
   */
  lemma BasicLoggingLog()
    ensures var s := DefaultSettings().(minLevel := ClampLevel(LOGGING_INFO));
      LogIsOn(s, LOGGING_INFO) &&
      ArgumentCount(Log(s, LOGGING_INFO, 1)) + ArgumentCount(LogIf(s, LOGGING_INFO, true, 1))
        + ArgumentCount(LogIf(s, LOGGING_INFO, false, 1)) == 2
  {
    var s := DefaultSettings().(minLevel := ClampLevel(LOGGING_INFO));
    assert LogIsOn(s, LOGGING_INFO);
    LogLazy(s, LOGGING_INFO, 1);
    LogIfLazy(s, LOGGING_INFO, true, 1);
    LogIfLazy(s, LOGGING_INFO, false, 1);
  }
}
