/**
 * The record header and the timestamp of easelog_prefix.cpp. Everything the
 * source asks the operating system for (program name, PID, thread name and
 * TID, the tick counter, the broken-down local time) is an input here.
 *
 * Header layout: `[prefix:][tick ]<LEVEL> PROG[[pid]]: [[thread(tid) - ]file(func-line)] `.
 */
module Prefix {
  import opened Common
  import opened StreamFormat
  import opened Settings

  // ---------------------------------------------------------------------------
  // Severity names and the header

  /** log_severity_name: the table entry for 0..4, "VERBOSE" below 0, "Unknown" above 4. */
  function SeverityName(names: NameTable, severity: i32): string
  {
    if 0 <= severity < LOGGING_NUM_SEVERITIES then names[severity]
    else if severity < 0 then "VERBOSE"
    else "Unknown"
  }

  /** What the header needs from the OS and from the record being built. */
  datatype HeaderInputs = HeaderInputs(
    program: Option<string>,   // program_invocation_short_name, possibly null
    pid: int,
    threadName: string,
    tid: int,
    tick: u64,
    file: string,
    func: string,
    line: i32)

  function PrefixPart(s: LoggingSettings): string
  {
    if s.prefix.Some? then s.prefix.value + ":" else ""
  }

  function TickPart(s: LoggingSettings, tick: u64): string
  {
    if s.tickcount then Decimal(tick) + " " else ""
  }

  /** `<name>`, with the magnitude of a negative severity before the `>`. */
  function LevelTag(names: NameTable, severity: i32): string
  {
    "<" + (SeverityName(names, severity) + ((if severity < 0 then Decimal(-(severity as int)) else "") + ">"))
  }

  /** GetProgramName: the short program name, or "(unknown)". */
  function ProgramName(program: Option<string>): string
  {
    if program.Some? then program.value else "(unknown)"
  }

  function PidPart(s: LoggingSettings, pid: int): string
  {
    if s.processId then "[" + Decimal(pid) + "]" else ""
  }

  function ThreadPart(s: LoggingSettings, threadName: string, tid: int): string
  {
    if s.threadId then threadName + "(" + Decimal(tid) + ") - " else ""
  }

  /** `file(func-line)] ` from its three rendered pieces. */
  function LocationOf(file: string, func: string, line: string): string
  {
    file + ("(" + (func + ("-" + (line + ")] "))))
  }

  function Location(file: string, func: string, line: i32): string
  {
    LocationOf(file, func, Decimal(line))
  }

  /** The header from its rendered parts, in the order they are streamed. */
  function Assemble(prefix: string, tick: string, tag: string, program: string, pid: string,
                    thread: string, location: string): string
  {
    prefix + (tick + (tag + (" " + (program + (pid + (": [" + (thread + location)))))))
  }

  /** InitSyslogPrefixWithBaseStyle: the header written at the start of every record. */
  function Header(s: LoggingSettings, severity: i32, h: HeaderInputs): string
  {
    Assemble(PrefixPart(s), TickPart(s, h.tick), LevelTag(s.severityNames, severity),
             ProgramName(h.program), PidPart(s, h.pid), ThreadPart(s, h.threadName, h.tid),
             Location(h.file, h.func, h.line))
  }

  /** The length of the header before the optional thread part. */
  function LeadLength(s: LoggingSettings, severity: i32, h: HeaderInputs): nat
  {
    |PrefixPart(s)| + |TickPart(s, h.tick)| + |LevelTag(s.severityNames, severity)| + 1
    + |ProgramName(h.program)| + |PidPart(s, h.pid)| + 3
  }

  // ---------------------------------------------------------------------------
  // Facts about the assembly, for any rendered parts

  /** A suffix of a suffix is a suffix. */
  lemma SuffixOfSuffix(r: string, t: string, k: nat)
    requires |t| <= |r| && r[|r| - |t|..] == t && k <= |t|
    ensures r[|r| - k..] == t[|t| - k..]
  {
    assert r[|r| - k..] == r[|r| - |t|..][|t| - k..];
  }

  lemma AssembleEndsWithLocation(p: string, t: string, g: string, m: string, d: string, th: string, loc: string)
    ensures var r := Assemble(p, t, g, m, d, th, loc);
      |r| >= |loc| && r[|r| - |loc|..] == loc
  {
  }

  lemma LocationEnds(file: string, func: string, line: string)
    ensures var loc := LocationOf(file, func, line);
      |loc| >= 3 && loc[|loc| - 3..] == ")] "
  {
  }

  lemma Assoc(a: string, b: string, c: string)
    ensures a + (b + c) == (a + b) + c
  {
  }

  /** `x` between `front` and `back` is `x` inserted into `front + back` at `|front|`. */
  lemma InsertAt(front: string, x: string, back: string)
    ensures |front| <= |front + back|
    ensures front + (x + back) == (front + back)[..|front|] + (x + (front + back)[|front|..])
  {
    assert (front + back)[..|front|] == front;
    assert (front + back)[|front|..] == back;
  }

  lemma AssemblePrefix(p: string, t: string, g: string, m: string, d: string, th: string, loc: string)
    ensures Assemble(p, t, g, m, d, th, loc) == p + Assemble("", t, g, m, d, th, loc)
  {
  }

  lemma AssembleTick(p: string, x: string, g: string, m: string, d: string, th: string, loc: string)
    ensures var on := Assemble(p, x, g, m, d, th, loc);
      var off := Assemble(p, "", g, m, d, th, loc);
      |p| <= |off| && on == off[..|p|] + (x + off[|p|..])
  {
    var rest := g + (" " + (m + (d + (": [" + (th + loc)))));
    assert "" + rest == rest;
    InsertAt(p, x, rest);
  }

  lemma AssemblePid(p: string, t: string, g: string, m: string, x: string, th: string, loc: string)
    ensures var on := Assemble(p, t, g, m, x, th, loc);
      var off := Assemble(p, t, g, m, "", th, loc);
      var i := |p| + |t| + |g| + 1 + |m|;
      i <= |off| && on == off[..i] + (x + off[i..])
  {
    var r := ": [" + (th + loc);
    var front := (((p + t) + g) + " ") + m;
    Assoc(p, t, g + (" " + (m + (x + r))));
    Assoc(p + t, g, " " + (m + (x + r)));
    Assoc((p + t) + g, " ", m + (x + r));
    Assoc(((p + t) + g) + " ", m, x + r);
    Assoc(p, t, g + (" " + (m + r)));
    Assoc(p + t, g, " " + (m + r));
    Assoc((p + t) + g, " ", m + r);
    Assoc(((p + t) + g) + " ", m, r);
    assert "" + r == r;
    InsertAt(front, x, r);
  }

  lemma AssembleThread(p: string, t: string, g: string, m: string, d: string, x: string, loc: string)
    ensures var on := Assemble(p, t, g, m, d, x, loc);
      var off := Assemble(p, t, g, m, d, "", loc);
      var i := |p| + |t| + |g| + 1 + |m| + |d| + 3;
      i <= |off| && on == off[..i] + (x + off[i..])
  {
    var front := (((((p + t) + g) + " ") + m) + d) + ": [";
    Assoc(p, t, g + (" " + (m + (d + (": [" + (x + loc))))));
    Assoc(p + t, g, " " + (m + (d + (": [" + (x + loc)))));
    Assoc((p + t) + g, " ", m + (d + (": [" + (x + loc))));
    Assoc(((p + t) + g) + " ", m, d + (": [" + (x + loc)));
    Assoc((((p + t) + g) + " ") + m, d, ": [" + (x + loc));
    Assoc(((((p + t) + g) + " ") + m) + d, ": [", x + loc);
    Assoc(p, t, g + (" " + (m + (d + (": [" + loc)))));
    Assoc(p + t, g, " " + (m + (d + (": [" + loc))));
    Assoc((p + t) + g, " ", m + (d + (": [" + loc)));
    Assoc(((p + t) + g) + " ", m, d + (": [" + loc));
    Assoc((((p + t) + g) + " ") + m, d, ": [" + loc);
    Assoc(((((p + t) + g) + " ") + m) + d, ": [", loc);
    assert "" + loc == loc;
    InsertAt(front, x, loc);
  }

  // ---------------------------------------------------------------------------
  // Header lemmas

  /** The header always ends with the location, hence with `)] `. */
  lemma HeaderEndsWithLocation(s: LoggingSettings, severity: i32, h: HeaderInputs)
    ensures var r := Header(s, severity, h);
      var loc := Location(h.file, h.func, h.line);
      |r| >= |loc| && r[|r| - |loc|..] == loc && r[|r| - 3..] == ")] "
  {
    var loc := Location(h.file, h.func, h.line);
    AssembleEndsWithLocation(PrefixPart(s), TickPart(s, h.tick), LevelTag(s.severityNames, severity),
      ProgramName(h.program), PidPart(s, h.pid), ThreadPart(s, h.threadName, h.tid), loc);
    LocationEnds(h.file, h.func, Decimal(h.line));
    SuffixOfSuffix(Header(s, severity, h), loc, 3);
  }

  /** With no prefix and the tick, PID and thread toggles off, the header is exactly `<name> PROG: [file(func-line)] `. */
  lemma PlainHeader(s: LoggingSettings, severity: i32, h: HeaderInputs)
    requires s.prefix.None? && !s.tickcount && !s.processId && !s.threadId
    requires severity >= 0
    ensures Header(s, severity, h) ==
      "<" + (SeverityName(s.severityNames, severity) + ("> " + (ProgramName(h.program)
      + (": [" + Location(h.file, h.func, h.line)))))
  {
    var name := SeverityName(s.severityNames, severity);
    var program := ProgramName(h.program);
    var loc := Location(h.file, h.func, h.line);
    assert LevelTag(s.severityNames, severity) == "<" + (name + ("" + ">"));
    assert PrefixPart(s) == "" && TickPart(s, h.tick) == "" && PidPart(s, h.pid) == ""
      && ThreadPart(s, h.threadName, h.tid) == "";
    PlainAssemble("<" + (name + ("" + ">")), program, loc);
    TagThenSpace(name, program + (": [" + loc));
  }

  /** With the optional parts empty, the header is the tag, a space, the program, `: [` and the location. */
  lemma PlainAssemble(g: string, m: string, loc: string)
    ensures Assemble("", "", g, m, "", "", loc) == g + (" " + (m + (": [" + loc)))
  {
    assert "" + loc == loc;
    assert "" + (": [" + loc) == ": [" + loc;
  }

  lemma TagThenSpace(name: string, rest: string)
    ensures ("<" + (name + ("" + ">"))) + (" " + rest) == "<" + (name + ("> " + rest))
  {
    assert "" + ">" == ">";
  }

  /** Severity -n is tagged `<VERBOSEn>`. */
  lemma VerboseTag(names: NameTable, severity: i32)
    requires severity < 0
    ensures LevelTag(names, severity) == "<" + ("VERBOSE" + (Digits(-(severity as int)) + ">"))
  {
  }

  /** Every severity above FATAL is tagged `<Unknown>`. */
  lemma UnknownTag(names: NameTable, severity: i32)
    requires severity > LOGGING_FATAL
    ensures LevelTag(names, severity) == "<Unknown>"
  {
  }

  predicate NoDigits(s: string)
  {
    forall k :: 0 <= k < |s| ==> !IsDigit(s[k])
  }

  /** A name table whose entries are pairwise different and free of digits. */
  predicate DistinctNames(names: NameTable)
  {
    && (forall i, j :: 0 <= i < j < |names| ==> names[i] != names[j])
    && (forall i :: 0 <= i < |names| ==> NoDigits(names[i]))
  }

  /** The inside of `<xy>` is `xy`, whose two parts can be read back by position. */
  lemma TagBody(x: string, y: string)
    ensures var t := "<" + (x + (y + ">"));
      |t| == |x| + |y| + 2 && t[1..|t| - 1] == x + y && (x + y)[..|x|] == x && (x + y)[|x|..] == y
  {
    var t := "<" + (x + (y + ">"));
    assert t[1..] == x + (y + ">");
    assert (x + (y + ">"))[..|x| + |y|] == x + y;
  }

  /**
   * Up to FATAL, the tag identifies the severity: different severities give
   * different tags (given distinct, digit-free names).
   */
  lemma LevelTagIdentifiesSeverity(names: NameTable, a: i32, b: i32)
    requires DistinctNames(names)
    requires a <= LOGGING_FATAL && b <= LOGGING_FATAL
    requires LevelTag(names, a) == LevelTag(names, b)
    ensures a == b
  {
    if a < 0 && b < 0 {
      VerboseTagInjective(names, a, b);
    } else if a < 0 {
      VerboseDigit(names, a, b);
    } else if b < 0 {
      VerboseDigit(names, b, a);
    } else {
      TableTagInjective(names, a, b);
    }
  }

  lemma VerboseTagInjective(names: NameTable, a: i32, b: i32)
    requires a < 0 && b < 0
    ensures LevelTag(names, a) == LevelTag(names, b) ==> a == b
  {
    var m: nat := -(a as int);
    var n: nat := -(b as int);
    assert LevelTag(names, a) == "<" + ("VERBOSE" + (Digits(m) + ">"));
    assert LevelTag(names, b) == "<" + ("VERBOSE" + (Digits(n) + ">"));
    TagDigitsInjective(Digits(m), Digits(n));
    DigitsInjective(m, n);
  }

  /** Different numbers have different renderings. */
  lemma DigitsInjective(m: nat, n: nat)
    ensures Digits(m) == Digits(n) ==> m == n
  {
    DigitsRoundTrip(m);
    DigitsRoundTrip(n);
  }

  lemma TagDigitsInjective(x: string, y: string)
    ensures "<" + ("VERBOSE" + (x + ">")) == "<" + ("VERBOSE" + (y + ">")) ==> x == y
  {
    TagBody("VERBOSE", x);
    TagBody("VERBOSE", y);
  }

  lemma TableTagInjective(names: NameTable, a: i32, b: i32)
    requires DistinctNames(names)
    requires 0 <= a <= LOGGING_FATAL && 0 <= b <= LOGGING_FATAL
    ensures LevelTag(names, a) == LevelTag(names, b) ==> a == b
  {
    TagBody(names[a], "");
    TagBody(names[b], "");
    assert names[a] + "" == names[a] && names[b] + "" == names[b];
  }

  /** A VERBOSE tag carries a digit at position 8, where a table tag has none. */
  lemma VerboseDigit(names: NameTable, a: i32, b: i32)
    requires DistinctNames(names)
    requires a < 0 && 0 <= b <= LOGGING_FATAL
    ensures LevelTag(names, a) != LevelTag(names, b)
  {
    var d := Digits(-(a as int));
    DigitsAreDigits(-(a as int));
    var name := names[b];
    TagBody("VERBOSE", d);
    TagBody(name, "");
    var ta := LevelTag(names, a);
    var tb := LevelTag(names, b);
    assert ta[8] == d[0];
    assert IsDigit(ta[8]);
    assert |name| > 7 ==> tb[8] == name[7] && !IsDigit(name[7]);
    assert |name| == 7 ==> tb[8] == '>';
  }

  /** The default names are distinct and digit-free, so default tags identify the severity. */
  lemma DefaultNamesDistinct()
    ensures DistinctNames(DefaultSettings().severityNames)
  {
  }

  /** A null prefix omits `prefix:` entirely; a prefix is written first, followed by `:`. */
  lemma PrefixToggle(s: LoggingSettings, p: string, severity: i32, h: HeaderInputs)
    ensures Header(s.(prefix := Some(p)), severity, h) == (p + ":") + Header(s.(prefix := None), severity, h)
  {
    AssemblePrefix(p + ":", TickPart(s, h.tick), LevelTag(s.severityNames, severity),
      ProgramName(h.program), PidPart(s, h.pid), ThreadPart(s, h.threadName, h.tid),
      Location(h.file, h.func, h.line));
  }

  /** Turning the tick count on inserts `tick ` right after the prefix, and nothing else. */
  lemma TickToggle(s: LoggingSettings, severity: i32, h: HeaderInputs)
    ensures var on := Header(s.(tickcount := true), severity, h);
      var off := Header(s.(tickcount := false), severity, h);
      var i := |PrefixPart(s)|;
      i <= |off| && on == off[..i] + ((Decimal(h.tick) + " ") + off[i..])
  {
    AssembleTick(PrefixPart(s), Decimal(h.tick) + " ", LevelTag(s.severityNames, severity),
      ProgramName(h.program), PidPart(s, h.pid), ThreadPart(s, h.threadName, h.tid),
      Location(h.file, h.func, h.line));
  }

  /** Turning the PID on inserts `[pid]` right after the program name, and nothing else. */
  lemma PidToggle(s: LoggingSettings, severity: i32, h: HeaderInputs)
    ensures var on := Header(s.(processId := true), severity, h);
      var off := Header(s.(processId := false), severity, h);
      var i := |PrefixPart(s)| + |TickPart(s, h.tick)| + |LevelTag(s.severityNames, severity)| + 1 + |ProgramName(h.program)|;
      i <= |off| && on == off[..i] + (("[" + Decimal(h.pid) + "]") + off[i..])
  {
    AssemblePid(PrefixPart(s), TickPart(s, h.tick), LevelTag(s.severityNames, severity),
      ProgramName(h.program), "[" + Decimal(h.pid) + "]", ThreadPart(s, h.threadName, h.tid),
      Location(h.file, h.func, h.line));
  }

  /** Turning the thread on inserts `thread(tid) - ` right after `: [`, and nothing else. */
  lemma ThreadToggle(s: LoggingSettings, severity: i32, h: HeaderInputs)
    ensures var on := Header(s.(threadId := true), severity, h);
      var off := Header(s.(threadId := false), severity, h);
      var i := LeadLength(s, severity, h);
      i <= |off| && on == off[..i] + ((h.threadName + "(" + Decimal(h.tid) + ") - ") + off[i..])
  {
    AssembleThread(PrefixPart(s), TickPart(s, h.tick), LevelTag(s.severityNames, severity),
      ProgramName(h.program), PidPart(s, h.pid), h.threadName + "(" + Decimal(h.tid) + ") - ",
      Location(h.file, h.func, h.line));
  }

  // ---------------------------------------------------------------------------
  // The timestamp

  /** The fields of `struct tm` from localtime_r, with `tv_usec` and `tm_gmtoff` (seconds east of UTC). */
  datatype BrokenDownTime = BrokenDownTime(
    tmYear: int, tmMon: int, tmMday: int, tmHour: int, tmMin: int, tmSec: int,
    usec: int, gmtoff: int)

  /** The ranges localtime_r and gettimeofday produce, with a four-digit year and an offset under a day. */
  predicate WellFormedTime(t: BrokenDownTime)
  {
    && 0 <= 1900 + t.tmYear <= 9999 && 0 <= t.tmMon <= 11 && 1 <= t.tmMday <= 31
    && 0 <= t.tmHour <= 23 && 0 <= t.tmMin <= 59 && 0 <= t.tmSec <= 60
    && 0 <= t.usec <= 999999 && -86400 < t.gmtoff < 86400
  }

  /** C's `/` on `long`: the quotient truncated toward zero. */
  function CDiv(a: int, b: int): int
    requires b > 0
  {
    if a >= 0 then a / b else -((-a) / b)
  }

  /** C's `%` on `long`: the remainder takes the sign of the dividend. */
  function CRem(a: int, b: int): int
    requires b > 0
  {
    a - b * CDiv(a, b)
  }

  function Abs(a: int): nat
  {
    if a < 0 then -a else a
  }

  /** `YYYY-MM-DDTHH:MM:SS.uuuuuu` from its rendered fields. */
  function DateTimeOf(y: string, mo: string, da: string, h: string, mi: string, se: string, us: string): string
  {
    y + ("-" + (mo + ("-" + (da + ("T" + (h + (":" + (mi + (":" + (se + ("." + us)))))))))))
  }

  /** The date and time, the part both timestamp variants share. */
  function DateTime(t: BrokenDownTime): string
  {
    DateTimeOf(Field(1900 + t.tmYear, 4), Field(1 + t.tmMon, 2), Field(t.tmMday, 2),
               Field(t.tmHour, 2), Field(t.tmMin, 2), Field(t.tmSec, 2), Field(t.usec, 6))
  }

  /** `±HH:MM` from its rendered pieces. */
  function ZoneOf(sign: char, hours: string, minutes: string): string
  {
    [sign] + (hours + (":" + minutes))
  }

  /** The zone as easelog_prefix.cpp:101-102 writes it: '+', then `gmtoff/3600` and `gmtoff%3600` in C arithmetic. */
  function ZoneAsWritten(gmtoff: int): string
  {
    ZoneOf('+', Field(CDiv(gmtoff, 3600), 2), Field(CRem(gmtoff, 3600), 2))
  }

  /** The zone as evidently intended: the sign of the offset, then its hours and minutes. */
  function Zone(gmtoff: int): string
  {
    ZoneOf(if gmtoff < 0 then '-' else '+', Field(Abs(gmtoff) / 3600, 2), Field(Abs(gmtoff) % 3600 / 60, 2))
  }

  /** LogSyslogPrefixTimestamp as written; this is the timestamp Flush writes to stderr. */
  function TimestampAsWritten(enabled: bool, t: BrokenDownTime): string
  {
    if enabled then DateTime(t) + (ZoneAsWritten(t.gmtoff) + " ") else ""
  }

  /** LogSyslogPrefixTimestamp with the zone corrected to the evidently intended `±HH:MM`. */
  function Timestamp(enabled: bool, t: BrokenDownTime): string
  {
    if enabled then DateTime(t) + (Zone(t.gmtoff) + " ") else ""
  }

  // ---------------------------------------------------------------------------
  // Timestamp lemmas

  lemma Pow10Values()
    ensures Pow10(2) == 100 && Pow10(4) == 10000 && Pow10(6) == 1000000
  {
  }

  /** A value below 100 fills a two-digit field that reads back as the value. */
  lemma TwoDigits(n: nat)
    requires n < 100
    ensures |Field(n, 2)| == 2 && AllDigits(Field(n, 2)) && ValueOf(Field(n, 2)) == n
  {
    Pow10Values();
    FieldRoundTrip(n, 2);
  }

  /** A value below 10000 fills a four-digit field that reads back as the value. */
  lemma FourDigits(n: nat)
    requires n < 10000
    ensures |Field(n, 4)| == 4 && AllDigits(Field(n, 4)) && ValueOf(Field(n, 4)) == n
  {
    Pow10Values();
    FieldRoundTrip(n, 4);
  }

  /** A value below 1000000 fills a six-digit field that reads back as the value. */
  lemma SixDigits(n: nat)
    requires n < 1000000
    ensures |Field(n, 6)| == 6 && AllDigits(Field(n, 6)) && ValueOf(Field(n, 6)) == n
  {
    Pow10Values();
    FieldRoundTrip(n, 6);
  }

  /** `a p b q c rest`, with `b` and `c` two characters wide: where each part sits. */
  lemma Front(a: string, p: char, b: string, q: char, c: string, rest: string)
    requires |b| == 2 && |c| == 2
    ensures var d := a + ([p] + (b + ([q] + (c + rest))));
      && d[..|a|] == a && d[|a|] == p && d[|a| + 1..|a| + 3] == b && d[|a| + 3] == q
      && d[|a| + 4..|a| + 6] == c && d[|a| + 6..] == rest
  {
    var d := a + ([p] + (b + ([q] + (c + rest))));
    var r1 := [p] + (b + ([q] + (c + rest)));
    assert d[|a|..] == r1;
    var r2 := b + ([q] + (c + rest));
    assert r1[1..] == r2;
    var r3 := [q] + (c + rest);
    assert r2[2..] == r3;
    assert r3[1..] == c + rest;
  }

  /** Where each field of the date and time sits, for any strings of the field widths. */
  lemma Separated(y: string, mo: string, da: string, h: string, mi: string, se: string, us: string)
    requires |y| == 4 && |mo| == 2 && |da| == 2 && |h| == 2 && |mi| == 2 && |se| == 2 && |us| == 6
    ensures var d := DateTimeOf(y, mo, da, h, mi, se, us);
      && |d| == 26
      && d[4] == '-' && d[7] == '-' && d[10] == 'T' && d[13] == ':' && d[16] == ':' && d[19] == '.'
      && d[0..4] == y && d[5..7] == mo && d[8..10] == da && d[11..13] == h
      && d[14..16] == mi && d[17..19] == se && d[20..26] == us
  {
    var r6 := h + (":" + (mi + (":" + (se + ("." + us)))));
    var d := y + ("-" + (mo + ("-" + (da + ("T" + r6)))));
    Front(y, '-', mo, '-', da, "T" + r6);
    assert d[10..] == "T" + r6;
    assert d[11..] == r6;
    Front(h, ':', mi, ':', se, "." + us);
    var u := d[11..];
    assert d[11..13] == u[..2] == h;
    assert d[13] == u[2] && d[14..16] == u[3..5] && d[16] == u[5] && d[17..19] == u[6..8];
    assert d[19..] == u[8..] == "." + us;
    var w := d[19..];
    assert w[1..] == us;
    assert d[20..] == w[1..];
  }

  /** The date and time are 26 characters at fixed places, and every field reads back as the value written. */
  lemma DateTimeLayout(t: BrokenDownTime)
    requires WellFormedTime(t)
    ensures var d := DateTime(t);
      && |d| == 26
      && d[4] == '-' && d[7] == '-' && d[10] == 'T' && d[13] == ':' && d[16] == ':' && d[19] == '.'
      && AllDigits(d[0..4]) && ValueOf(d[0..4]) == 1900 + t.tmYear
      && AllDigits(d[5..7]) && ValueOf(d[5..7]) == 1 + t.tmMon
      && AllDigits(d[8..10]) && ValueOf(d[8..10]) == t.tmMday
      && AllDigits(d[11..13]) && ValueOf(d[11..13]) == t.tmHour
      && AllDigits(d[14..16]) && ValueOf(d[14..16]) == t.tmMin
      && AllDigits(d[17..19]) && ValueOf(d[17..19]) == t.tmSec
      && AllDigits(d[20..26]) && ValueOf(d[20..26]) == t.usec
  {
    FourDigits(1900 + t.tmYear);
    TwoDigits(1 + t.tmMon);
    TwoDigits(t.tmMday);
    TwoDigits(t.tmHour);
    TwoDigits(t.tmMin);
    TwoDigits(t.tmSec);
    SixDigits(t.usec);
    Separated(Field(1900 + t.tmYear, 4), Field(1 + t.tmMon, 2), Field(t.tmMday, 2),
              Field(t.tmHour, 2), Field(t.tmMin, 2), Field(t.tmSec, 2), Field(t.usec, 6));
  }

  lemma ZoneShape(sign: char, hours: string, minutes: string)
    requires |hours| == 2 && |minutes| == 2
    ensures var z := ZoneOf(sign, hours, minutes);
      |z| == 6 && z[0] == sign && z[1..3] == hours && z[3] == ':' && z[4..6] == minutes
  {
    var z := ZoneOf(sign, hours, minutes);
    assert z[1..] == hours + (":" + minutes);
  }

  /**
   * The corrected zone is `±HH:MM`: six characters, and sign, hours and
   * minutes give back the offset to the minute.
   */
  lemma ZoneLayout(gmtoff: int)
    requires -86400 < gmtoff < 86400
    ensures var z := Zone(gmtoff);
      && |z| == 6 && (z[0] == '+' || z[0] == '-') && z[3] == ':'
      && AllDigits(z[1..3]) && AllDigits(z[4..6])
      && ValueOf(z[4..6]) < 60
      && (if z[0] == '-' then -1 else 1) * (ValueOf(z[1..3]) * 3600 + ValueOf(z[4..6]) * 60)
         == (if gmtoff < 0 then -1 else 1) * (Abs(gmtoff) / 60 * 60)
  {
    var a := Abs(gmtoff);
    var hours, minutes := a / 3600, a % 3600 / 60;
    HoursMinutes(a);
    TwoDigits(hours);
    TwoDigits(minutes);
    ZoneShape(if gmtoff < 0 then '-' else '+', Field(hours, 2), Field(minutes, 2));
  }

  /** Whole hours and the remaining whole minutes make up the offset to the minute. */
  lemma HoursMinutes(a: nat)
    requires a < 86400
    ensures a / 3600 < 24 && a % 3600 / 60 < 60
    ensures a / 3600 * 3600 + a % 3600 / 60 * 60 == a / 60 * 60
  {
  }

  lemma StampShape(d: string, z: string)
    requires |d| == 26 && |z| == 6
    ensures var ts := d + (z + " ");
      |ts| == 33 && ts[..26] == d && ts[26..32] == z && ts[32] == ' '
  {
    var ts := d + (z + " ");
    assert ts[26..] == z + " ";
  }

  /** A whole corrected timestamp is 33 characters: date and time, zone, one space. */
  lemma TimestampLayout(t: BrokenDownTime)
    requires WellFormedTime(t)
    ensures var ts := Timestamp(true, t);
      |ts| == 33 && ts[..26] == DateTime(t) && ts[26..32] == Zone(t.gmtoff) && ts[32] == ' '
  {
    DateTimeLayout(t);
    ZoneLayout(t.gmtoff);
    StampShape(DateTime(t), Zone(t.gmtoff));
  }

  /** With the timestamp toggle off, nothing is written. */
  lemma TimestampDisabled(t: BrokenDownTime)
    ensures Timestamp(false, t) == "" && TimestampAsWritten(false, t) == ""
  {
  }

  /** East of UTC by whole hours, the code as written and the corrected zone agree. */
  lemma ZoneAgreesOnWholeEastHours(gmtoff: int)
    requires 0 <= gmtoff && gmtoff % 3600 == 0
    ensures ZoneAsWritten(gmtoff) == Zone(gmtoff)
  {
  }

  /**
   * Where they differ, east: India (+05:30) comes out as "+05:1800", because
   * the second field is the remainder in seconds, not minutes.
   */
  lemma ZoneAsWrittenHalfHour()
    ensures ZoneAsWritten(19800) == "+05:1800" && Zone(19800) == "+05:30"
  {
    HalfHourFields();
    assert CDiv(19800, 3600) == 5 && CRem(19800, 3600) == 1800;
    assert Abs(19800) / 3600 == 5 && Abs(19800) % 3600 / 60 == 30;
  }

  lemma HalfHourFields()
    ensures Field(5, 2) == "05" && Field(1800, 2) == "1800" && Field(30, 2) == "30"
  {
    assert Digits(1800) == "1800" by {
      assert Digits(180) == "180" by {
        assert Digits(18) == "18";
      }
    }
    assert Digits(30) == "30";
  }

  /**
   * Where they differ, west: New York in winter (-05:00) comes out as
   * "+-5:00", because the sign is hard-coded and the fill goes before the minus.
   */
  lemma ZoneAsWrittenWest()
    ensures ZoneAsWritten(-18000) == "+-5:00" && Zone(-18000) == "-05:00"
  {
    assert Field(-5, 2) == "-5";
    assert Field(5, 2) == "05";
    assert Field(0, 2) == "00";
  }

  /**
   * East of UTC, the zone as written is '+', the whole hours in two digits,
   * ':', then the rest of the offset in SECONDS (not minutes), in at least
   * two digits.
   */
  lemma ZoneAsWrittenEast(gmtoff: int)
    requires 0 <= gmtoff < 86400
    ensures var z := ZoneAsWritten(gmtoff);
      && |z| >= 6 && z[0] == '+' && z[3] == ':'
      && AllDigits(z[1..3]) && ValueOf(z[1..3]) == gmtoff / 3600
      && AllDigits(z[4..]) && ValueOf(z[4..]) == gmtoff % 3600
  {
    var h, r := gmtoff / 3600, gmtoff % 3600;
    assert CDiv(gmtoff, 3600) == h && CRem(gmtoff, 3600) == r;
    TwoDigits(h);
    FieldReadsBack(r, 2);
    var z := ZoneOf('+', Field(h, 2), Field(r, 2));
    assert |Field(r, 2)| >= 2;
    assert z[1..] == Field(h, 2) + (":" + Field(r, 2));
    assert z[4..] == Field(r, 2);
  }

  /**
   * The zone as written is right exactly for whole-hour offsets east of UTC:
   * west of UTC it starts with '+', and any other offset east of UTC shows
   * its remainder in seconds where the minutes belong.
   */
  lemma ZoneAsWrittenCorrectExactly(gmtoff: int)
    requires -86400 < gmtoff < 86400
    ensures ZoneAsWritten(gmtoff) == Zone(gmtoff) <==> 0 <= gmtoff && gmtoff % 3600 == 0
  {
    if gmtoff < 0 {
      assert ZoneAsWritten(gmtoff)[0] == '+' && Zone(gmtoff)[0] == '-';
    } else if gmtoff % 3600 == 0 {
      ZoneAgreesOnWholeEastHours(gmtoff);
    } else {
      var h, r := gmtoff / 3600, gmtoff % 3600;
      ZoneAsWrittenEast(gmtoff);
      TwoDigits(h);
      TwoDigits(r / 60);
      ZoneShape('+', Field(h, 2), Field(r / 60, 2));
      var z := Zone(gmtoff);
      assert z == ZoneOf('+', Field(h, 2), Field(r / 60, 2));
      assert z[4..] == Field(r / 60, 2);
      assert r / 60 < r;
    }
  }

  /** A 26-character date and time followed by any zone and one space. */
  lemma WideStampShape(d: string, z: string)
    requires |d| == 26
    ensures var ts := d + (z + " ");
      |ts| == 27 + |z| && ts[..26] == d && ts[26..|ts| - 1] == z && ts[|ts| - 1] == ' '
  {
    var ts := d + (z + " ");
    assert ts[26..] == z + " ";
  }

  /**
   * The timestamp as written: the 26-character date and time, the zone as
   * written (starting with '+', of varying width), then one space.
   */
  lemma TimestampAsWrittenLayout(t: BrokenDownTime)
    requires WellFormedTime(t)
    ensures var ts := TimestampAsWritten(true, t);
      var z := ZoneAsWritten(t.gmtoff);
      && |ts| == 27 + |z| && ts[..26] == DateTime(t) && ts[26] == '+'
      && ts[26..|ts| - 1] == z && ts[|ts| - 1] == ' '
  {
    StampParts(t, DateTime(t), ZoneAsWritten(t.gmtoff));
  }

  /** TimestampAsWrittenLayout with the rendered date and zone named, which keeps the proof small. */
  lemma StampParts(t: BrokenDownTime, d: string, z: string)
    requires WellFormedTime(t) && d == DateTime(t) && z == ZoneAsWritten(t.gmtoff)
    ensures var ts := TimestampAsWritten(true, t);
      && |ts| == 27 + |z| && ts[..26] == d && ts[26] == '+'
      && ts[26..|ts| - 1] == z && ts[|ts| - 1] == ' '
  {
    assert |d| == 26 by {
      DateTimeLayout(t);
    }
    WideStampShape(d, z);
    assert z[0] == '+';
  }

  /** The timestamp as written equals the corrected one exactly for whole-hour offsets east of UTC. */
  lemma TimestampAsWrittenCorrectExactly(t: BrokenDownTime)
    requires WellFormedTime(t)
    ensures TimestampAsWritten(true, t) == Timestamp(true, t) <==> 0 <= t.gmtoff && t.gmtoff % 3600 == 0
  {
    ZoneAsWrittenCorrectExactly(t.gmtoff);
    var d, za, zc := DateTime(t), ZoneAsWritten(t.gmtoff), Zone(t.gmtoff);
    if d + (za + " ") == d + (zc + " ") {
      assert za + " " == (d + (za + " "))[|d|..];
      assert zc + " " == (d + (zc + " "))[|d|..];
      assert za == (za + " ")[..|za|];
      assert zc == (zc + " ")[..|zc|];
    }
  }
}
