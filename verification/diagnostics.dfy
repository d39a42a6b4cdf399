/** Compiler feedback: severity-tagged messages with an optional file name and line
    number, their deterministic text rendering, and the three append-only lists
    (informational, warning, error) that decide whether a compile failed. */
module Diagnostics {
  import opened Wrappers
  import Strings
  import Decimal

  /** The line number recorded when a message is not tied to a line. */
  const NoLineNumber: int := -1

  datatype Severity = Informational | Warning | Error | Unexpected

  /** One diagnostic. `fileName` is the file being processed when it was raised. */
  datatype Feedback = Feedback(severity: Severity, message: string, fileName: Option<string>, lineNo: int)

  function SeverityWord(s: Severity): string {
    match s
    case Informational => "INFO"
    case Warning => "WARNING"
    case Error => "ERROR"
    case Unexpected => "UNEXPECTED ERROR"
  }

  /** `[file:line]` (or `[file]` without a line, nothing without a file). */
  function Location(f: Feedback): (r: string)
    ensures f.fileName.None? <==> r == ""
  {
    match f.fileName
    case None => ""
    case Some(name) =>
      "[" + name + (if f.lineNo != NoLineNumber then ":" + Decimal.IntToString(f.lineNo) else "") + "]"
  }

  /** The text written to the compiler log for a feedback. */
  function LogString(f: Feedback): (r: string)
    ensures Strings.EndsWith(r, ": " + f.message)
    ensures f.fileName.None? ==> r == ": " + f.message
    ensures f.fileName.Some? ==> Strings.StartsWith(r, "[" + f.fileName.value)
  {
    var loc := Location(f);
    assert (loc + ": " + f.message)[|loc|..] == ": " + f.message;
    loc + ": " + f.message
  }

  /** The severity word, a space, then the log string. */
  function StandardLine(f: Feedback): (r: string)
    ensures Strings.StartsWith(r, SeverityWord(f.severity) + " ")
    ensures Strings.EndsWith(r, LogString(f))
    ensures |r| == |SeverityWord(f.severity)| + 1 + |LogString(f)|
  {
    var head := SeverityWord(f.severity) + " ";
    assert (head + LogString(f))[..|head|] == head;
    assert (head + LogString(f))[|head|..] == LogString(f);
    head + LogString(f)
  }

  /** Reads the severity back off the front of a standard feedback line. */
  function SeverityOfLine(line: string): Option<Severity> {
    if Strings.StartsWith(line, "INFO ") then Some(Informational)
    else if Strings.StartsWith(line, "WARNING ") then Some(Warning)
    else if Strings.StartsWith(line, "ERROR ") then Some(Error)
    else if Strings.StartsWith(line, "UNEXPECTED ERROR ") then Some(Unexpected)
    else None
  }

  /** The severity of a feedback is recoverable from its standard line. */
  lemma SeverityOfStandardLine(f: Feedback)
    ensures SeverityOfLine(StandardLine(f)) == Some(f.severity)
  {
    var line := StandardLine(f);
    var head := SeverityWord(f.severity) + " ";
    assert line[..|head|] == head;
    match f.severity
    case Informational =>
      assert Strings.StartsWith(line, "INFO ");
    case Warning =>
      FirstCharRulesOut(line, head, "INFO ");
      assert Strings.StartsWith(line, "WARNING ");
    case Error =>
      FirstCharRulesOut(line, head, "INFO ");
      FirstCharRulesOut(line, head, "WARNING ");
      assert Strings.StartsWith(line, "ERROR ");
    case Unexpected =>
      FirstCharRulesOut(line, head, "INFO ");
      FirstCharRulesOut(line, head, "WARNING ");
      FirstCharRulesOut(line, head, "ERROR ");
      assert Strings.StartsWith(line, "UNEXPECTED ERROR ");
  }

  /** A line that starts with `head` does not start with a word whose first
      character differs from that of `head`. */
  lemma FirstCharRulesOut(line: string, head: string, other: string)
    requires Strings.StartsWith(line, head) && |head| > 0 && |other| > 0 && head[0] != other[0]
    ensures !Strings.StartsWith(line, other)
  {
    assert line[0] == line[..|head|][0] == head[0];
    if |other| <= |line| {
      assert line[..|other|][0] != other[0];
    }
  }

  /** File and line as read back from a log string. */
  datatype ParsedLocation = ParsedLocation(fileName: Option<string>, line: Option<int>)

  /** Splits a log string into its location and message. */
  function ParseLogString(s: string): Option<(ParsedLocation, string)> {
    if Strings.StartsWith(s, ": ") then Some((ParsedLocation(None, None), s[2..]))
    else if |s| > 0 && s[0] == '[' && ']' in s then
      var close := Strings.IndexOf(s, ']');
      var after := s[close + 1..];
      if !Strings.StartsWith(after, ": ") then None
      else ParseLocation(s[1..close], after[2..])
    else None
  }

  /** Reads the text inside the brackets: a file name, and a line number after
      its first colon if it has one. */
  function ParseLocation(inside: string, message: string): Option<(ParsedLocation, string)> {
    if ':' in inside then
      var colon := Strings.IndexOf(inside, ':');
      match Decimal.ParseInt(inside[colon + 1..])
      case None => None
      case Some(n) => Some((ParsedLocation(Some(inside[..colon]), Some(n)), message))
    else Some((ParsedLocation(Some(inside), None), message))
  }

  /** A file name the rendering can be read back from. */
  predicate PlainFileName(name: string) {
    ':' !in name && ']' !in name
  }

  /** The line number shown in the log string, if any. */
  function ShownLine(f: Feedback): Option<int> {
    if f.fileName.Some? && f.lineNo != NoLineNumber then Some(f.lineNo) else None
  }

  /** The log string determines the file name, the shown line number and the
      message: reading it back gives them unchanged. */
  lemma ParseLogStringOfLogString(f: Feedback)
    requires f.fileName.Some? ==> PlainFileName(f.fileName.value)
    requires Decimal.IsInt32(f.lineNo)
    ensures ParseLogString(LogString(f)) == Some((ParsedLocation(f.fileName, ShownLine(f)), f.message))
  {
    if f.fileName.None? {
      assert LogString(f)[..2] == ": ";
    } else if f.lineNo != NoLineNumber {
      ParseLogStringWithLine(f);
    } else {
      ParseLogStringWithoutLine(f);
    }
  }

  lemma ParseLogStringWithLine(f: Feedback)
    requires f.fileName.Some? && PlainFileName(f.fileName.value)
    requires Decimal.IsInt32(f.lineNo) && f.lineNo != NoLineNumber
    ensures ParseLogString(LogString(f)) == Some((ParsedLocation(f.fileName, Some(f.lineNo)), f.message))
  {
    LogStringWithLine(f);
    ParseNamedLine(f.fileName.value, f.lineNo, f.message);
  }

  /** The log string of a feedback with a file and a real line number. */
  lemma LogStringWithLine(f: Feedback)
    requires f.fileName.Some? && f.lineNo != NoLineNumber
    ensures LogString(f) == "[" + (f.fileName.value + ":" + Decimal.IntToString(f.lineNo)) + "]" + ": " + f.message
  {
  }

  /** Reading back `[name:line]: message`. */
  lemma ParseNamedLine(name: string, line: int, message: string)
    requires PlainFileName(name) && Decimal.IsInt32(line)
    ensures ParseLogString("[" + (name + ":" + Decimal.IntToString(line)) + "]" + ": " + message) ==
      Some((ParsedLocation(Some(name), Some(line)), message))
  {
    var inside := name + ":" + Decimal.IntToString(line);
    ParseNameAndLine(name, line);
    ParseLogStringBracketed(inside, message);
  }

  lemma ParseLogStringWithoutLine(f: Feedback)
    requires f.fileName.Some? && PlainFileName(f.fileName.value)
    requires f.lineNo == NoLineNumber
    ensures ParseLogString(LogString(f)) == Some((ParsedLocation(f.fileName, None), f.message))
  {
    var name := f.fileName.value;
    assert LogString(f) == "[" + name + "]" + ": " + f.message;
    ParseLogStringBracketed(name, f.message);
  }

  /** Reading a bracketed location reads the text inside the brackets. */
  lemma ParseLogStringBracketed(inside: string, message: string)
    requires ']' !in inside
    ensures ParseLogString("[" + inside + "]" + ": " + message) == ParseLocation(inside, message)
  {
    var s := "[" + inside + "]" + ": " + message;
    ParseBracketed(inside, message);
    var after := s[|inside| + 2..];
    assert after[..2] == ": ";
    assert after[2..] == message;
  }

  lemma ParseBracketed(inside: string, message: string)
    requires ']' !in inside
    ensures var s := "[" + inside + "]" + ": " + message;
      && s[0] == '[' && ']' in s
      && Strings.IndexOf(s, ']') == |inside| + 1
      && s[1..|inside| + 1] == inside
      && s[|inside| + 2..] == ": " + message
      && !Strings.StartsWith(s, ": ")
  {
    var s := "[" + inside + "]" + ": " + message;
    assert s[|inside| + 1] == ']';
    assert s[1..|inside| + 1] == inside;
    assert s[|inside| + 2..] == ": " + message;
  }

  lemma ParseNameAndLine(name: string, line: int)
    requires PlainFileName(name)
    requires Decimal.IsInt32(line)
    ensures var inside := name + ":" + Decimal.IntToString(line);
      && ':' in inside
      && Strings.IndexOf(inside, ':') == |name|
      && inside[..|name|] == name
      && Decimal.ParseInt(inside[|name| + 1..]) == Some(line)
  {
    var inside := name + ":" + Decimal.IntToString(line);
    assert inside[|name|] == ':';
    assert inside[..|name|] == name;
    assert inside[|name| + 1..] == Decimal.IntToString(line);
    Decimal.ParseIntOfIntToString(line);
  }

  /** The feedback collected by one compiler instance, kept by severity. */
  datatype Log = Log(infos: seq<Feedback>, warnings: seq<Feedback>, errors: seq<Feedback>)

  const EmptyLog := Log([], [], [])

  predicate HasErrors(log: Log)
    ensures !HasErrors(log) <==> log.errors == []
  {
    |log.errors| > 0
  }

  predicate HasErrorsOrWarnings(log: Log)
    ensures HasErrors(log) ==> HasErrorsOrWarnings(log)
    ensures !HasErrorsOrWarnings(log) <==> log.errors == [] && log.warnings == []
  {
    |log.warnings| > 0 || HasErrors(log)
  }

  /** Every list holds only feedback of its own severity. */
  predicate Sorted(log: Log) {
    && (forall i :: 0 <= i < |log.infos| ==> log.infos[i].severity == Informational)
    && (forall i :: 0 <= i < |log.warnings| ==> log.warnings[i].severity == Warning)
    && (forall i :: 0 <= i < |log.errors| ==> log.errors[i].severity == Error)
  }

  /** `later` holds everything `earlier` held, in the same places: nothing was removed. */
  predicate Extends(earlier: Log, later: Log) {
    && earlier.infos <= later.infos
    && earlier.warnings <= later.warnings
    && earlier.errors <= later.errors
  }

  lemma ExtendsTransitive(a: Log, b: Log, c: Log)
    requires Extends(a, b) && Extends(b, c)
    ensures Extends(a, c)
  {
  }

  function AddInfo(log: Log, currentFile: Option<string>, msg: string, lineNo: int): (r: Log)
    ensures Extends(log, r) && r.warnings == log.warnings && r.errors == log.errors
    ensures |r.infos| == |log.infos| + 1
    ensures r.infos[|log.infos|] == Feedback(Informational, msg, currentFile, lineNo)
    ensures HasErrors(r) == HasErrors(log)
    ensures HasErrorsOrWarnings(r) == HasErrorsOrWarnings(log)
    ensures Sorted(log) ==> Sorted(r)
  {
    log.(infos := log.infos + [Feedback(Informational, msg, currentFile, lineNo)])
  }

  function AddWarn(log: Log, currentFile: Option<string>, msg: string, lineNo: int): (r: Log)
    ensures Extends(log, r) && r.infos == log.infos && r.errors == log.errors
    ensures |r.warnings| == |log.warnings| + 1
    ensures r.warnings[|log.warnings|] == Feedback(Warning, msg, currentFile, lineNo)
    ensures HasErrors(r) == HasErrors(log)
    ensures HasErrorsOrWarnings(r)
    ensures Sorted(log) ==> Sorted(r)
  {
    log.(warnings := log.warnings + [Feedback(Warning, msg, currentFile, lineNo)])
  }

  function AddErr(log: Log, currentFile: Option<string>, msg: string, lineNo: int): (r: Log)
    ensures Extends(log, r) && r.infos == log.infos && r.warnings == log.warnings
    ensures |r.errors| == |log.errors| + 1
    ensures r.errors[|log.errors|] == Feedback(Error, msg, currentFile, lineNo)
    ensures HasErrors(r) && HasErrorsOrWarnings(r)
    ensures Sorted(log) ==> Sorted(r)
  {
    log.(errors := log.errors + [Feedback(Error, msg, currentFile, lineNo)])
  }
}
