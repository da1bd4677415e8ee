/**
 * The process-wide logging state of easelog.cpp: `g_logging_settings` with
 * its setters, and the one-time initialisation of the two index queues that
 * LogMessage::Init performs through the function-local `g_log_init` flag.
 */
module Logging {
  import opened Common
  import opened Settings
  import LogQueues

  /** The library's global state. */
  class Logger {
    /** g_logging_settings */
    var settings: LoggingSettings
    /** g_log_init: have the queues been initialised? */
    var logInit: bool
    /** g_log_free_queue, g_log_wait_queue and g_log_queue_entries, once initialised. */
    var queues: LogQueues.LogQueues?

    /** The queues exist exactly when the flag says they were initialised. */
    ghost predicate Valid()
      reads this
    {
      logInit <==> queues != null
    }

    /** The state at program start: default settings, queues not yet initialised. */
    constructor ()
      ensures Valid()
      ensures settings == DefaultSettings() && !logInit && queues == null
    {
      settings := DefaultSettings();
      logInit := false;
      queues := null;
    }

    /**
     * BaseInitLoggingImpl: replaces the settings by a copy of `s` and reports
     * success. With the FILE bit set the source dereferences the path, so
     * the path must be present then.
     */
    method BaseInitLoggingImpl(s: LoggingSettings) returns (ok: bool)
      requires s.dest & LOG_TO_FILE != 0 ==> s.logFilePath.Some?
      modifies this
      ensures ok
      ensures settings == s
      ensures logInit == old(logInit) && queues == old(queues)
    {
      settings := s;
      if settings.dest & LOG_TO_FILE == 0 {
        return true;
      }
      // The path is copied onto itself: nothing changes.
      settings := settings.(logFilePath := Some(s.logFilePath.value));
      return true;
    }

    /** SetMinLogLevel: stores the level clamped to FATAL and changes nothing else. */
    method SetMinLogLevel(level: i32)
      modifies this
      ensures settings == old(settings).(minLevel := ClampLevel(level))
      ensures GetMinLogLevel() <= LOGGING_FATAL
      ensures logInit == old(logInit) && queues == old(queues)
    {
      settings := settings.(minLevel := ClampLevel(level));
    }

    /** GetMinLogLevel */
    function GetMinLogLevel(): i32
      reads this
    {
      settings.minLevel
    }

    /** SetLogItems: sets the four header toggles and nothing else. */
    method SetLogItems(processId: bool, threadId: bool, timestamp: bool, tickcount: bool)
      modifies this
      ensures settings == old(settings).(processId := processId, threadId := threadId,
                                         timestamp := timestamp, tickcount := tickcount)
      ensures logInit == old(logInit) && queues == old(queues)
    {
      settings := settings.(processId := processId, threadId := threadId,
                            timestamp := timestamp, tickcount := tickcount);
    }

    /** SetLogPrefix: stores the prefix as given, unchecked, and nothing else. */
    method SetLogPrefix(prefix: Option<string>)
      modifies this
      ensures settings == old(settings).(prefix := prefix)
      ensures logInit == old(logInit) && queues == old(queues)
    {
      settings := settings.(prefix := prefix);
    }

    /**
     * The first step of LogMessage::Init: on the first call the queues are
     * initialised (InitLoggingQueue); on later calls nothing happens.
     */
    method InitQueuesOnce()
      requires Valid()
      modifies this
      ensures Valid() && logInit && settings == old(settings)
      ensures old(logInit) ==> queues == old(queues)
      ensures !old(logInit) ==>
        && queues != null && fresh(queues) && queues.Valid()
        && (forall i: nat :: i in queues.free.Chain <==> i < LogQueues.ASYNC_QUEUE_SIZE as nat)
        && queues.wait.Chain == [] && queues.Holders == map[]
    {
      if !logInit {
        logInit := true;
        queues := new LogQueues.LogQueues.InitLoggingQueue();
      }
    }
  }

  // ---------------------------------------------------------------------------
  // What the setters mean for the gates

  /** After SetMinLogLevel(level), a severity passes the level test exactly when it is at least the clamped level. */
  lemma MinLevelGate(s: LoggingSettings, level: i32, severity: i32)
    ensures ShouldCreateLogMessage(s.(minLevel := ClampLevel(level)), severity) <==>
      (severity >= level || severity >= LOGGING_FATAL) && (s.dest != LOG_NONE || severity >= s.alwaysPrint)
  {
  }

  /**
   * The gates read only the minimum level, always-print and the destination:
   * the header toggles (SetLogItems) and the prefix (SetLogPrefix) never
   * change which records are built or where they go.
   */
  lemma GatesReadOnlyLevels(s: LoggingSettings, t: LoggingSettings, severity: i32)
    requires s.minLevel == t.minLevel && s.alwaysPrint == t.alwaysPrint && s.dest == t.dest
    ensures ShouldCreateLogMessage(t, severity) == ShouldCreateLogMessage(s, severity)
    ensures ShouldLogToStderr(t, severity) == ShouldLogToStderr(s, severity)
  {
  }

  /**
   * LOG_IS_ON(FATAL) fails only when the minimum level is above FATAL, or
   * there is no destination and always-print is above FATAL; SetMinLogLevel
   * cannot produce the first case, but BaseInitLoggingImpl copies the level
   * unclamped.
   */
  lemma FatalGate(s: LoggingSettings)
    ensures !ShouldCreateLogMessage(s, LOGGING_FATAL) <==>
      s.minLevel > LOGGING_FATAL || (s.dest == LOG_NONE && s.alwaysPrint > LOGGING_FATAL)
  {
  }
}
