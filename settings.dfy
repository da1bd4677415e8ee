/**
 * The process-wide logging settings of easelog.h / easelog.cpp: the
 * destination bitmask, the severity scale, the settings record with its
 * defaults, and the two gates that decide whether a record is built and
 * whether it is written to stderr.
 */
module Settings {
  import opened Common

  // ---------------------------------------------------------------------------
  // Destinations (LoggingDestination, a uint32_t bitmask)

  const LOG_NONE: bv32 := 0
  const LOG_TO_FILE: bv32 := 1
  const LOG_TO_SYSTEM_DEBUG_LOG: bv32 := 2
  const LOG_TO_STDERR: bv32 := 4
  const LOG_TO_ALL: bv32 := LOG_TO_FILE | LOG_TO_SYSTEM_DEBUG_LOG | LOG_TO_STDERR
  const LOG_DEFAULT: bv32 := LOG_TO_SYSTEM_DEBUG_LOG | LOG_TO_STDERR

  // ---------------------------------------------------------------------------
  // Severities (LogSeverity, an int32_t)

  const LOGGING_DEBUG: i32 := 0
  const LOGGING_INFO: i32 := 1
  const LOGGING_WARNING: i32 := 2
  const LOGGING_ERROR: i32 := 3
  const LOGGING_FATAL: i32 := 4
  const LOGGING_NUM_SEVERITIES: i32 := 5

  /** log_severity_names: one name per severity DEBUG..FATAL. */
  type NameTable = s: seq<string> | |s| == LOGGING_NUM_SEVERITIES witness ["", "", "", "", ""]

  /**
   * struct LoggingSettings. The file handle is never opened by the library and
   * is not part of this model; C strings that may be null are `Option<string>`.
   */
  datatype LoggingSettings = LoggingSettings(
    logFilePath: Option<string>,
    minLevel: i32,
    alwaysPrint: i32,
    dest: bv32,
    processId: bool,
    threadId: bool,
    timestamp: bool,
    tickcount: bool,
    prefix: Option<string>,
    severityNames: NameTable)

  /** g_logging_settings as initialised. */
  function DefaultSettings(): LoggingSettings
  {
    LoggingSettings(
      None, LOGGING_INFO, LOGGING_ERROR, LOG_DEFAULT,
      true, true, true, false,
      None, ["debug", "info", "warning", "error", "fatal"])
  }

  /** The value SetMinLogLevel stores: `std::min(LOGGING_FATAL, level)`. */
  function ClampLevel(level: i32): (r: i32)
    ensures r <= LOGGING_FATAL
    ensures level <= LOGGING_FATAL ==> r == level
    ensures level > LOGGING_FATAL ==> r == LOGGING_FATAL
  {
    if LOGGING_FATAL < level then LOGGING_FATAL else level
  }

  /** ShouldCreateLogMessage: is a record of `severity` built at all? */
  function ShouldCreateLogMessage(s: LoggingSettings, severity: i32): bool
  {
    if severity < s.minLevel then false
    else s.dest != LOG_NONE || severity >= s.alwaysPrint
  }

  /** ShouldLogToStderr: does a built record of `severity` go to stderr? */
  function ShouldLogToStderr(s: LoggingSettings, severity: i32): bool
  {
    if s.dest & LOG_TO_STDERR != 0 then true
    else if severity >= s.alwaysPrint then s.dest & !LOG_TO_FILE == LOG_NONE
    else false
  }

  // ---------------------------------------------------------------------------
  // Lemmas

  /** The destination constants are the three single bits, and the composites are their unions. */
  lemma DestinationBits()
    ensures LOG_TO_FILE == 1 << 0 && LOG_TO_SYSTEM_DEBUG_LOG == 1 << 1 && LOG_TO_STDERR == 1 << 2
    ensures LOG_TO_ALL == 7 && LOG_DEFAULT == 6
    ensures LOG_TO_FILE & LOG_TO_SYSTEM_DEBUG_LOG == 0 && LOG_TO_FILE & LOG_TO_STDERR == 0
    ensures LOG_TO_SYSTEM_DEBUG_LOG & LOG_TO_STDERR == 0
  {
  }

  /** "No bit other than FILE" means the destination is NONE or exactly FILE. */
  lemma OnlyFileBit(d: bv32)
    ensures d & !LOG_TO_FILE == LOG_NONE <==> d == LOG_NONE || d == LOG_TO_FILE
  {
  }

  /** Raising the severity of a call never closes the creation gate. */
  lemma CreateMonotone(s: LoggingSettings, lower: i32, higher: i32)
    requires lower <= higher && ShouldCreateLogMessage(s, lower)
    ensures ShouldCreateLogMessage(s, higher)
  {
  }

  /** Raising the minimum level never builds a record that a lower minimum would not. */
  lemma RaisingMinimumBuildsFewer(s: LoggingSettings, lower: i32, higher: i32, severity: i32)
    requires lower <= higher && ShouldCreateLogMessage(s.(minLevel := higher), severity)
    ensures ShouldCreateLogMessage(s.(minLevel := lower), severity)
  {
  }

  /** The stderr gate, exactly: the STDERR bit, or a high severity with no destination or only the file. */
  lemma StderrGate(s: LoggingSettings, severity: i32)
    ensures ShouldLogToStderr(s, severity) <==>
      s.dest & LOG_TO_STDERR != 0 ||
      (severity >= s.alwaysPrint && (s.dest == LOG_NONE || s.dest == LOG_TO_FILE))
  {
    OnlyFileBit(s.dest);
  }

  /** Raising the severity of a call never closes the stderr gate. */
  lemma StderrMonotone(s: LoggingSettings, lower: i32, higher: i32)
    requires lower <= higher && ShouldLogToStderr(s, lower)
    ensures ShouldLogToStderr(s, higher)
  {
  }

  /** Every record that would be written to stderr and passes the minimum level is built. */
  lemma StderrImpliesCreated(s: LoggingSettings, severity: i32)
    requires severity >= s.minLevel && ShouldLogToStderr(s, severity)
    ensures ShouldCreateLogMessage(s, severity)
  {
    StderrGate(s, severity);
  }

  /** No minimum level can filter out FATAL: after SetMinLogLevel, FATAL passes the level test. */
  lemma FatalNeverBelowMinimum(s: LoggingSettings, level: i32)
    ensures ShouldCreateLogMessage(s.(minLevel := ClampLevel(level)), LOGGING_FATAL) <==>
      s.dest != LOG_NONE || LOGGING_FATAL >= s.alwaysPrint
  {
  }

  /** With the defaults, INFO and above are built and everything built goes to stderr; DEBUG is dropped. */
  lemma DefaultGates(severity: i32)
    ensures ShouldCreateLogMessage(DefaultSettings(), severity) <==> severity >= LOGGING_INFO
    ensures ShouldLogToStderr(DefaultSettings(), severity)
  {
  }
}
