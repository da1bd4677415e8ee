# easelog core, modelled in Dafny

easelog is a small C++ logging library. A call site writes
`LOG(INFO) << ...` or `LOG_IF(sev, cond) << ...`. Two process-wide gates decide
whether a record is built at all (`ShouldCreateLogMessage`) and whether it goes
to stderr (`ShouldLogToStderr`). A `LogMessage` writes a syslog-style header
into its stream on construction. The caller streams the message after it. The
destructor (`Flush`) appends a newline and, when the stderr gate allows, writes
a timestamp and the line to stderr through `WriteToFd`. On FATAL it ends the
process through `HandleFatal`. Alongside sits a lock-free index queue
(`llqueue`) with its two-queue slot protocol: a free queue and a message queue
over one array of entries.

The model covers these parts:

- `common.dfy` (`Common`): fixed-width integer types, `Option`, `Min`/`Max`.
- `llqueue.dfy` (`LLQueue`): the index queue. A class `IndexQueue` works over an
  `array<Entry>`. A ghost `Chain` lists the indices reachable from the head, and
  `Valid()` ties the head, the links and the live count to it. The packed
  head/cookie word and the in-place reversal of `llqueue_dequeue_all` are
  modelled as well. Each compare-and-swap loop is its one successful iteration.
- `logqueues.dfy` (`LogQueues`): `InitLoggingQueue` and the
  allocate / publish / drain protocol of the two queues. The invariant is that
  every index is in exactly one queue or held by exactly one user.
- `settings.dfy` (`Settings`): the destination bits, the severities, the
  settings record with its defaults, and the two gates as functions.
- `logging.dfy` (`Logging`): the global settings as a class `Logger` with its
  setters, and the one-time queue initialisation guarded by `g_log_init`.
- `streamformat.dfy` (`StreamFormat`): what the library needs from
  `std::ostream`. That is decimal integers, and `setw`/`setfill('0')`, which
  pad before the sign.
- `prefix.dfy` (`Prefix`): the severity name, the header and the timestamp,
  including the timezone exactly as written and as evidently intended.
- `platform.dfy` (`Platform`):
  - a `Process` (errno, the output trace, termination);
  - `ScopedClearLastError` and `ScopedCleanUp` as classes with an explicit
    destructor method;
  - the debug `HANDLE_EINTR` over a system-call oracle;
  - `TickCountUs` in `uint64_t` arithmetic;
  - the exit status of `exit(-1)`.
- `sink.dfy` (`Sink`): `WriteToFd` as a loop, proved against a recursive
  specification (`Outcome`) of the whole run.
- `record.dfy` (`Record`): `LogMessage` with both constructors, `Init`,
  streaming, and `Flush` with its errno guard, stderr branch and fatal cleanup.
- `macros.dfy` (`Macros`): `LOG_IS_ON`, `LAZY_STREAM`, `LOG` and `LOG_IF`, as
  the sequence of observable steps each statement causes.

The operating system is an input to the model:

- `write(2)` is an oracle `Oracle = nat -> Reply`, giving the reply to the
  k-th call: at most `limit >= 1` bytes accepted, or a failure with an error
  code.
- The program name, PID, thread name, TID and monotonic clock are an
  `Environment` value.
- The local time is a `BrokenDownTime` value.
- The process's observable behaviour is the sequence of `Output`s: writes to
  descriptors, then possibly an `Exit`.

`ShouldCreateLogMessage` (`easelog/log/easelog.cpp:131-139`) returns false
whenever the severity is below the minimum level, whatever the destination
(`Logging.MinLevelGate`).

The destructor's queue path is commented out (`easelog/log/easelog.cpp:233-267`),
so `Flush` writes directly to stderr. The queue protocol is modelled from the
usage comment at `easelog/log/easelog_llqueue.h:24-60`.

Two comments in `easelog/log/easelog.h` promise more than the code does:
- Lines 29-30 say that, unless the destination is `LOG_NONE`, every record of
  severity ERROR and above also goes to stderr. `Settings.StderrGate` states
  what the code does instead. With the destination `LOG_TO_SYSTEM_DEBUG_LOG`
  alone, no record reaches stderr. With `LOG_NONE`, a record at or above
  always-print does.
- Line 215 says that `LOG_IS_ON(FATAL)` always holds. `Logging.FatalGate`
  states exactly when it does not.

## Model

| member | source | states |
|---|---|---|
| LLQueue.PackRoundTrip | easelog/log/easelog_llqueue.h:73-81 | the 64-bit head word holds both fields: unpacking it gives back the head index and the cookie |
| LLQueue.CookieAfterIsSum | easelog/log/easelog_llqueue.cpp:36-45 | after k successful head updates the cookie has advanced by exactly k modulo 2^32 |
| LLQueue.CookieFresh | easelog/log/easelog_llqueue.h:73-81 | ABA protection: a head word seen again after between 1 and 2^32-1 updates carries a different cookie |
| LLQueue.ReverseReverse | easelog/log/easelog_llqueue.cpp:92-104 | reversing a chain twice gives it back, which is why pushing then draining restores the push order |
| LLQueue.NullChainEmpty | easelog/log/easelog_llqueue.h:62-63 | only the empty chain starts at LLQUEUE_NULL_IDX |
| LLQueue.PushLink | easelog/log/easelog_llqueue.cpp:38-41 | linking a fresh index in front of a well-formed chain makes a well-formed chain headed by it; only that index's link changes; the count stays within the array |
| LLQueue.PopLink | easelog/log/easelog_llqueue.cpp:62-70 | removing the head and resetting its link to NULL leaves the rest a well-formed chain that starts at the old head's successor |
| LLQueue.WalkFollowsChain | easelog/log/easelog_llqueue.h:66-70 | following `next` from the head visits exactly the chain's indices in order, then reaches NULL and stops |
| LLQueue.ChainUnique | easelog/log/easelog_llqueue.h:66-70 | a head and the array of links determine the chain: two chains from one head are equal |
| LLQueue.CountWithinCapacity | easelog/log/easelog_llqueue.h:84-89 | the live count of a well-formed queue never exceeds entries_sz (pigeonhole over distinct indices) |
| LLQueue.RelinkedChain | easelog/log/easelog_llqueue.cpp:96-104 | after n turns of the reversal loop the n visited indices form a chain in reverse order, headed by the last one visited |
| LLQueue.ReverseLinks | easelog/log/easelog_llqueue.cpp:92-107 | the reversal loop returns the chain's length and the head of the same indices chained in reverse order; it changes only the visited entries, and only their links |
| LLQueue.IndexQueue.Init | easelog/log/easelog_llqueue.cpp:20-28 | llqueue_init: an empty queue (head NULL, cookie 0, count 0) over the given array and capacity |
| LLQueue.IndexQueue.Enqueue | easelog/log/easelog_llqueue.cpp:30-49 | llqueue_enqueue: the index becomes the head in front of the old chain; returns the old head; cookie +1 mod 2^32; count +1; only the index's link changes |
| LLQueue.IndexQueue.Dequeue | easelog/log/easelog_llqueue.cpp:51-72 | llqueue_dequeue: on an empty queue returns NULL and changes nothing; otherwise returns the most recently pushed index, whose link is reset to NULL, with the rest of the chain, cookie +1 and count -1 |
| LLQueue.IndexQueue.DequeueAll | easelog/log/easelog_llqueue.cpp:74-108 | llqueue_dequeue_all: empties the queue (cookie +1, count 0) and returns the head of the detached indices chained oldest first; data untouched; an empty queue is left as it was |
| LLQueue.PushThenDrain | easelog/log/easelog_llqueue.cpp:74-108 | drain order: indices pushed one by one and then drained are visited, by following `next` from the returned head, in the order they were pushed |
| LogQueues.CountdownMembers | easelog/log/easelog.cpp:90-92 | after the init loop the free chain holds exactly the indices below the size |
| LogQueues.PartitionedDrain | easelog/log/easelog_llqueue.h:53-59 | once the whole message chain has moved onto the free chain, every index is still owned exactly once |
| LogQueues.LogQueues.InitLoggingQueue | easelog/log/easelog.cpp:86-93 | both queues over one 4096-entry array; the message queue is empty; the free queue holds every index (4095 first, down to 0); nothing is held |
| LogQueues.FillFree | easelog/log/easelog.cpp:90-92 | the init loop pushes 0..4095 on the empty free queue, which ends as the chain 4095..0 with count 4096 |
| LogQueues.LogQueues.Allocate | easelog/log/easelog_llqueue.h:42-45 | allocation takes the free queue's head for the user, or NULL when none is free; ownership stays a partition; no data changes |
| LogQueues.LogQueues.Publish | easelog/log/easelog_llqueue.h:46-47 | the holder stores its data in its slot and pushes the index on the message queue; it is no longer held; no other slot's data changes |
| LogQueues.LogQueues.Consume | easelog/log/easelog_llqueue.h:50-60 | the consumer receives every published data pointer in publication order; every drained index goes back to the free queue; ownership stays a partition |
| LogQueues.DrainQueues | easelog/log/easelog_llqueue.h:53-60 | draining the message queue returns the data in publication order and leaves the drained indices in front of the free chain |
| LogQueues.ReturnToFree | easelog/log/easelog_llqueue.h:55-60 | the consumer loop collects the data along the drained chain in order and pushes each index on the free queue; no data pointer changes |
| Settings.ClampLevel | easelog/log/easelog.cpp:119-122 | the stored level is never above FATAL; a level up to FATAL is kept; a higher one becomes FATAL |
| Settings.DestinationBits | easelog/log/easelog.h:33-44 | FILE, SYSTEM_DEBUG_LOG and STDERR are the three disjoint low bits; ALL is 7 and DEFAULT is 6 |
| Settings.OnlyFileBit | easelog/log/easelog.cpp:152 | "no bit other than FILE" holds exactly for NONE and FILE |
| Settings.CreateMonotone | easelog/log/easelog.cpp:131-139 | if a severity passes the creation gate, every higher severity passes it too |
| Settings.RaisingMinimumBuildsFewer | easelog/log/easelog.cpp:131-139 | raising the minimum level never lets a record through that a lower minimum would have stopped |
| Settings.StderrMonotone | easelog/log/easelog.cpp:145-155 | if a severity goes to stderr, every higher severity goes there too |
| Settings.StderrGate | easelog/log/easelog.cpp:145-155 | stderr iff the STDERR bit is set, or the severity reaches always-print and the destination is NONE or only FILE |
| Settings.StderrImpliesCreated | easelog/log/easelog.cpp:131-155 | every record that passes the minimum level and would go to stderr is built |
| Settings.FatalNeverBelowMinimum | easelog/log/easelog.cpp:119-139 | after SetMinLogLevel with any level, FATAL passes the level test; whether it is built then depends only on the destination and always-print |
| Settings.DefaultGates | easelog/log/easelog.cpp:51-63 | with the default settings, exactly INFO and above are built, and every severity goes to stderr |
| Logging.Logger.constructor | easelog/log/easelog.cpp:51-63 | the program starts with the default settings and the queues not yet initialised |
| Logging.Logger.BaseInitLoggingImpl | easelog/log/easelog.cpp:99-116 | the settings become the given ones, unclamped, and the call reports success; the queue state is untouched |
| Logging.Logger.SetMinLogLevel | easelog/log/easelog.cpp:119-128 | only the minimum level changes; it becomes the clamped level, so GetMinLogLevel never exceeds FATAL afterwards |
| Logging.Logger.SetLogItems | easelog/log/easelog.cpp:158-165 | the four header toggles take the given values and nothing else changes |
| Logging.Logger.SetLogPrefix | easelog/log/easelog.cpp:168-172 | the prefix is stored as given, unchecked, and nothing else changes |
| Logging.Logger.InitQueuesOnce | easelog/log/easelog.cpp:298-304 | the first call creates the queues (free queue holds every index, message queue empty); later calls leave them as they are; the settings never change |
| Logging.MinLevelGate | easelog/log/easelog.cpp:119-139 | after SetMinLogLevel(level), a severity is built iff it is at least `level` or at least FATAL, and there is a destination or it reaches always-print |
| Logging.GatesReadOnlyLevels | easelog/log/easelog.cpp:131-172 | the gates depend only on the minimum level, always-print and the destination, so SetLogItems and SetLogPrefix never change which records are built or where they go |
| Logging.FatalGate | easelog/log/easelog.cpp:131-139 | FATAL is dropped iff the minimum level is above FATAL (possible only through BaseInitLoggingImpl) or there is no destination and always-print is above FATAL |
| Macros.StreamOrder | easelog/log/easelog.h:230-231 | a streamed statement builds the record first, evaluates each operand exactly once, left to right, and flushes last |
| Macros.LogLazy | easelog/log/easelog.h:212-233 | LOG builds a record, and evaluates its operands, iff LOG_IS_ON holds; otherwise no operand is evaluated |
| Macros.LogIfLazy | easelog/log/easelog.h:235-236 | LOG_IF evaluates its condition iff the gate is open, and builds a record and evaluates its operands iff the gate is open and the condition holds |
| Macros.LogIfTrueIsLog | easelog/log/easelog.h:233-236 | LOG_IF with a true condition behaves as LOG, after evaluating the condition when the gate is open |
| Macros.BasicLoggingLog | easelog/log/easelog_unittest.cpp:41-61 | after SetMinLogLevel(INFO) on the defaults, LOG_IS_ON(INFO) holds, and LOG(INFO), LOG_IF(INFO, true) and LOG_IF(INFO, false), each streaming one mock call, make it run exactly twice |
| StreamFormat.DigitsAreDigits | easelog/log/easelog_prefix.cpp:125 | the decimal rendering of a natural number consists of digits only |
| StreamFormat.DigitsRoundTrip | easelog/log/easelog_prefix.cpp:125 | a decimal rendering reads back as the number it renders |
| StreamFormat.DigitsNoLeadingZero | easelog/log/easelog_prefix.cpp:125 | a rendering starts with '0' only for zero itself |
| StreamFormat.FieldRoundTrip | easelog/log/easelog_prefix.cpp:93-100 | `setfill('0') << setw(w)` of a number below 10^w is exactly w digits that read back as the number |
| StreamFormat.FieldReadsBack | easelog/log/easelog_prefix.cpp:93-102 | a zero-filled field of any natural number, in any width, is digits that read back as the number |
| StreamFormat.NegativeFieldPadsBeforeSign | easelog/log/easelog_prefix.cpp:101 | a negative number in width w is max(w, 1 + its digit count) characters: zeros, then '-', then the digits of its magnitude, so the zero fill goes before the sign |
| Prefix.HeaderEndsWithLocation | easelog/log/easelog_prefix.cpp:140 | every header ends with `file(func-line)] `, hence with `)] ` |
| Prefix.PlainHeader | easelog/log/easelog_prefix.cpp:111-141 | with no prefix and the tick, PID and thread toggles off, the header is exactly `<name> PROG: [file(func-line)] ` |
| Prefix.VerboseTag | easelog/log/easelog_prefix.cpp:123-127 | a negative severity -n is tagged `<VERBOSEn>` |
| Prefix.UnknownTag | easelog/log/easelog_prefix.cpp:71-79 | every severity above FATAL is tagged `<Unknown>` |
| Prefix.LevelTagIdentifiesSeverity | easelog/log/easelog_prefix.cpp:71-79 | up to FATAL, different severities get different tags, given pairwise different, digit-free names |
| Prefix.DigitsInjective | easelog/log/easelog_prefix.cpp:125 | different verbose levels print different numbers |
| Prefix.DefaultNamesDistinct | easelog/log/easelog.cpp:62 | the default names are pairwise different and digit-free, so default tags identify the severity |
| Prefix.PrefixToggle | easelog/log/easelog_prefix.cpp:115-117 | a set prefix puts `prefix:` in front of the header that no prefix gives, and changes nothing else |
| Prefix.TickToggle | easelog/log/easelog_prefix.cpp:118-120 | turning the tick count on inserts `tick ` right after the prefix, and changes nothing else |
| Prefix.PidToggle | easelog/log/easelog_prefix.cpp:129-132 | turning the PID on inserts `[pid]` right after the program name, and changes nothing else |
| Prefix.ThreadToggle | easelog/log/easelog_prefix.cpp:133-139 | turning the thread on inserts `thread(tid) - ` right after `: [`, and changes nothing else |
| Prefix.DateTimeLayout | easelog/log/easelog_prefix.cpp:93-100 | for in-range fields the date and time are 26 characters with separators at fixed positions, and each field reads back as year, month, day, hour, minute, second, microsecond |
| Prefix.ZoneLayout | easelog/log/easelog_prefix.cpp:101-102 | the corrected zone is `±HH:MM`, and its sign, hours and minutes give back the offset to the minute |
| Prefix.TimestampLayout | easelog/log/easelog_prefix.cpp:81-106 | the corrected timestamp (with `Prefix.Zone`), when enabled, is 33 characters: the date and time, the zone, then one space |
| Prefix.TimestampAsWrittenLayout | easelog/log/easelog_prefix.cpp:81-106 | the timestamp as written, when enabled, is the 26-character date and time, then the as-written zone starting with '+', then one space |
| Prefix.TimestampAsWrittenCorrectExactly | easelog/log/easelog_prefix.cpp:81-106 | the timestamp as written equals the corrected one exactly when the offset is a whole number of hours east of UTC |
| Prefix.TimestampDisabled | easelog/log/easelog_prefix.cpp:85-105 | with the timestamp toggle off the timestamp is empty |
| Prefix.ZoneAgreesOnWholeEastHours | easelog/log/easelog_prefix.cpp:101-102 | for whole-hour offsets east of UTC the zone as written equals the corrected zone |
| Prefix.ZoneAsWrittenEast | easelog/log/easelog_prefix.cpp:101-102 | east of UTC the zone as written is '+', the hours in two digits, ':', then the leftover offset in seconds, not minutes |
| Prefix.ZoneAsWrittenCorrectExactly | easelog/log/easelog_prefix.cpp:101-102 | for offsets within a day, the zone as written equals the corrected zone if and only if the offset is a whole number of hours east of UTC |
| Prefix.ZoneAsWrittenHalfHour | easelog/log/easelog_prefix.cpp:101-102 | as written, UTC+05:30 prints "+05:1800"; corrected, "+05:30" |
| Prefix.ZoneAsWrittenWest | easelog/log/easelog_prefix.cpp:101-102 | as written, UTC-05:00 prints "+-5:00"; corrected, "-05:00" |
| Platform.ExitStatus | easelog/log/easelog.cpp:325 | the status the parent sees is the exit code modulo 256: below 256, equal to a code in 0..255 |
| Platform.ExitMinusOne | easelog/log/easelog.cpp:325 | `exit(-1)` is seen as status 255 |
| Platform.ScopedClearLastError.constructor | easelog/log/easelog_private.h:80 | saves errno, then clears it; no output |
| Platform.ScopedClearLastError.Restore | easelog/log/easelog_private.h:85 | the destructor puts the saved errno back; no output |
| Platform.GuardedScope | easelog/log/easelog_private.h:74-89 | whatever a guarded scope leaves in errno, errno after the scope is its value before |
| Platform.FatalOutput | easelog/log/easelog.cpp:317-330 | HandleFatal writes `!!!Self-Abort!!!`, the line and a newline to stdout, then exits with status 255 |
| Platform.Run | easelog/log/easelog.cpp:226-231 | the cleanup lambda does nothing for a non-fatal record and runs HandleFatal for a fatal one; errno unchanged |
| Platform.ScopedCleanUp.constructor | easelog/log/easelog_private.h:97 | stores the action without running it |
| Platform.ScopedCleanUp.Destroy | easelog/log/easelog_private.h:102 | the destructor runs the stored action exactly once |
| Platform.CallResult | easelog/log/easelog.cpp:179 | a call returns -1 iff it failed; a success returns at most the request, and at least one byte of a non-empty request |
| Platform.LastCallBounds | easelog/log/easelog_private.h:45-53 | HANDLE_EINTR makes at most 101 calls; every call but the last failed with EINTR; the last did not, unless the retry limit was hit |
| Platform.NoRetryWithoutEintr | easelog/log/easelog_private.h:51 | a call that does not fail with EINTR is not retried |
| Platform.Eintr | easelog/log/easelog_private.h:45-53 | one HANDLE_EINTR: between 1 and 101 calls; the result is -1 exactly when the last call failed, else a count within the request |
| Platform.HandleEintr | easelog/log/easelog_private.h:45-53 | the retry loop assigns `ret` the last call's result and leaves errno and the call count as Eintr says; no output |
| Platform.TickFailure | easelog/log/easelog_private.h:121-124 | a failed clock read gives 0 |
| Platform.TickExact | easelog/log/easelog_private.h:126-129 | without wrap-around the tick is the time in whole microseconds and splits back into seconds and microseconds |
| Platform.TickMonotone | easelog/log/easelog_private.h:109-130 | without wrap-around the tick never goes backwards as the clock advances |
| Sink.OutcomeBounds | easelog/log/easelog.cpp:174-186 | WriteToFd never reports more than the buffer; it stops short of the end only right after a failed call |
| Sink.OutcomeWrites | easelog/log/easelog.cpp:178-185 | every write WriteToFd makes goes to the given descriptor and carries at least one byte |
| Sink.OutcomeBytes | easelog/log/easelog.cpp:174-186 | the descriptor receives exactly the buffer's bytes from the start position up to where the run stops, in order |
| Sink.OutcomeStep | easelog/log/easelog.cpp:179-184 | one round: a failed call ends the run; a successful one writes its bytes and leaves the rest to the next round |
| Sink.NoFailureCompletes | easelog/log/easelog.cpp:178-185 | when no call fails, every byte gets written |
| Sink.NothingLeftNoCall | easelog/log/easelog.cpp:178 | an empty remainder makes no call and changes nothing |
| Sink.WriteRound | easelog/log/easelog.cpp:179-184 | one loop turn: HANDLE_EINTR around a write of the rest, and on success that many bytes go out |
| Sink.WriteToFd | easelog/log/easelog.cpp:174-186 | the loop's bytes written, next call, errno and output are those of the run specification, which the Outcome lemmas characterise |
| Record.Basename | easelog/log/easelog.cpp:310 | the result is the path's part after its last '/': a suffix preceded by '/' and containing none |
| Record.BasenameUnique | easelog/log/easelog.cpp:310 | any '/'-free suffix that follows a '/' is the basename, so the trimmed file name holds no '/' |
| Record.BasenameOfJoin | easelog/log/easelog.cpp:310 | `dir/name` with a '/'-free name trims to `name` |
| Record.LogMessage.constructor | easelog/log/easelog.cpp:189-193 | the record holds the basename, func, line and severity; its stream is the header; message_start_ is the header's end; errno and output are unchanged |
| Record.LogMessage.Check | easelog/log/easelog.cpp:196-201 | severity FATAL; the stream is the header up to message_start_, then `Check failed: cond. ` |
| Record.LogMessage.Init | easelog/log/easelog.cpp:296-315 | queues initialised once; file trimmed to the basename; header written; message_start_ at the header's end; errno restored |
| Record.LogMessage.WriteHeader | easelog/log/easelog.cpp:310-314 | the basename, the header for the clock reading, and message start at its end, which follows `)] ` |
| Record.LogMessage.Append | easelog/log/easelog.h:167 | streaming appends to the record's text and moves neither the message start nor the file name |
| Record.LogMessage.Flush | easelog/log/easelog.cpp:209-293 | one newline appended; stderr gets what the stderr emission gives; a FATAL record then prints the self-abort line and exits with errno not restored; any other record leaves errno as it was and the process running |
| Record.EmitToStderr | easelog/log/easelog.cpp:269-278 | with the gate closed nothing happens; otherwise the timestamp then the line go through WriteToFd, the second continuing from the first's call count and errno |
| Record.WriteBoth | easelog/log/easelog.cpp:276-277 | the two WriteToFd calls: output, call count and errno of the timestamp run followed by the line run |
| Record.EmissionBytes | easelog/log/easelog.cpp:269-278 | stderr receives only writes to stderr: a prefix of the timestamp followed by a prefix of the line; nothing when the gate is closed |
| Record.EmissionComplete | easelog/log/easelog.cpp:276-277 | when no call fails, stderr receives the whole timestamp followed by the whole line |
| Record.FatalEnding | easelog/log/easelog.cpp:317-330 | a fatal Flush ends the output with `!!!Self-Abort!!!` + line on stdout, then exit status 255 |

## Left out

- Atomics and concurrency are not modelled. Each compare-and-swap retry loop (`easelog/log/easelog_llqueue.cpp:37-45`, `58-67`, `84-90`) is its one successful iteration. The `atomic_fetch_add`/`atomic_fetch_sub` on `entries_num` are plain updates. Memory ordering and interleavings of several threads are not part of this model.
- `g_log_mutex` and `RandomSleep` (`easelog/log/easelog_private.h:133`): both only serialise or perturb threads, which the sequential model has no need for.
- LLQueue.IndexQueue.Enqueue requires an index in range that is not already queued. The source does not check this. Pushing a queued index again would corrupt the chain, and the slot protocol never does it.
- The `__pad` field of `llqueue_entry` carries nothing. The `void *data` pointer is a natural number.
- The PID and TID caches (`easelog/log/easelog_prefix.cpp:40-68`), `GetProgramName`, `pthread_getname_np`, `clock_gettime`, `gettimeofday` and `localtime_r` are not modelled as calls. Their results are inputs (`Environment`, `BrokenDownTime`). The 15-character limit on thread names is not modelled.
- `write(2)` is the oracle. A write that accepts zero bytes of a non-empty request is excluded by the reply type (`limit >= 1`), because the source would retry it forever.
- The release (`NDEBUG`) `HANDLE_EINTR` (`easelog/log/easelog_private.h:32-41`) is not modelled; the model is the debug build. As written, that macro never assigns `ret`.
- The commented-out queue path of `Flush` (`easelog/log/easelog.cpp:233-267`) and the file sink (`easelog/log/easelog.cpp:280-292`) are not compiled, so they are not modelled. The queue protocol comes from the usage comment of the queue header. `InitializeLogFileHandle` is not part of this model.
- Logging.Logger.BaseInitLoggingImpl requires a path when the FILE bit is set, because the source dereferences it there. Copying the path onto itself is modelled as leaving it unchanged.
- Record.Basename requires a '/' in the path. Without one, `strrchr` returns null and the source's `+ 1` is undefined behaviour.
- LogMessage's destructor is the explicit method `Flush`. `ScopedClearLastError` and `ScopedCleanUp` run their destructors through `Restore` and `Destroy`. `stack_start` is passed to HandleFatal, which does not use it.
- `std::endl` is the newline only. Its flush and the buffering of `std::cout` are not modelled: HandleFatal's text is one write to descriptor 1.
- Negating a verbose severity in `int32_t` (`easelog/log/easelog_prefix.cpp:125`) is done on unbounded integers, so the overflow at `INT32_MIN` is not modelled.
- Stream formatting beyond decimal integers and zero-filled `setw` (locales, other manipulators) is not modelled.
- The accessors `stream()`, `str()`, `severity()`, `file()`, `func()` and `line()`, and `GetLoggingSettings`, are the class's fields. `GetMinLogLevel` is a function of the settings. `g_swallow_stream` and `LogMessageVoidify` only make the macros type-check; `LAZY_STREAM` is modelled by its evaluation order.
- The setters enforce no settings invariants, and neither does the model. It stores whatever they are given: a prefix need not match `[A-Za-z0-9]+`, and BaseInitLoggingImpl can set a minimum level above FATAL (see `Logging.FatalGate`).
- Macros.StreamOrder assumes C++17 sequencing of `<<`: the temporary `LogMessage`, with its header, is built before any streamed operand is evaluated. Before C++17 the compiler may evaluate an operand first, and the model does not capture that order.
- LogQueues.LogQueues.Consume does not call `easeipc_llqueue_reverse`, which the usage comment of the queue header calls after `llqueue_dequeue_all` (`easelog/log/easelog_llqueue.h:53-54`). No such function exists in the library, and `llqueue_dequeue_all` already returns the chain oldest first.
- LLQueue.Pack assumes the little-endian layout of `union llqueue_head`: the head in the low 32 bits, the cookie in the high 32 bits. `LLQueue.IndexQueue` keeps head and cookie as two fields; `LLQueue.PackRoundTrip` states that the word holds both without loss.
- The cookie in `LLQueue` is modelled, but the queue never compares it. The ABA protection it gives a real compare-and-swap is stated only as `LLQueue.CookieFresh`.

## Findings

| source | as written | input that shows it | evidently intended | confidence | as-written member | corrected member |
|---|---|---|---|---|---|---|
| easelog/log/easelog_prefix.cpp:101-102 | the zone is a hard-coded '+', then `setw(2) << tm_gmtoff / 3600`, ':', `setw(2) << tm_gmtoff % 3600`; the second field is the remainder in seconds, and the zero fill goes before a minus sign | `tm_gmtoff = 19800` (UTC+05:30) gives "+05:1800"; `tm_gmtoff = -18000` (UTC-05:00) gives "+-5:00" | the offset's sign, then two-digit hours and two-digit minutes: "+05:30", "-05:00" | not executed | Prefix.ZoneAsWrittenCorrectExactly | Prefix.ZoneLayout |

The as-written zone is `Prefix.ZoneAsWritten`, with `Prefix.ZoneAsWrittenHalfHour`
and `Prefix.ZoneAsWrittenWest` exhibiting the two inputs, and
`Prefix.ZoneAsWrittenCorrectExactly` stating exactly where it goes wrong. The
corrected zone is `Prefix.Zone`, proved by `Prefix.ZoneLayout`, and the corrected
timestamp built on it is `Prefix.Timestamp`, proved by `Prefix.TimestampLayout`.
`Record.LogMessage.Flush` writes the timestamp as written
(`Prefix.TimestampAsWritten`, laid out by `Prefix.TimestampAsWrittenLayout`), as
the code does; it equals the corrected one for whole-hour offsets east of UTC
(`Prefix.TimestampAsWrittenCorrectExactly`).
