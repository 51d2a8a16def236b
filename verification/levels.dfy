/** Severity levels (common/clogging/levels.go): zapcore's int8 levels plus
    the two sentinels this package adds, and the level-name parser. */
module Levels {
  import opened Wrappers
  import opened Strings

  /** zapcore.Level is an int8. */
  type Level = l: int | -128 <= l <= 127

  const DebugLevel: Level := -1
  const InfoLevel: Level := 0
  const WarnLevel: Level := 1
  const ErrorLevel: Level := 2
  const DPanicLevel: Level := 3
  const PanicLevel: Level := 4
  const FatalLevel: Level := 5

  /** math.MinInt8: a threshold that never lets anything through. */
  const DisabledLevel: Level := -128
  /** One step more verbose than Debug. */
  const PayloadLevel: Level := DebugLevel - 1

  /** zapcore's Level.Enabled: a threshold lets through every level at or above it. */
  predicate Enabled(threshold: Level, lvl: Level)
  {
    lvl >= threshold
  }

  /** The order of the named levels and sentinels. */
  lemma LevelOrder()
    ensures DisabledLevel < PayloadLevel < DebugLevel < InfoLevel < WarnLevel
    ensures WarnLevel < ErrorLevel < DPanicLevel < PanicLevel < FatalLevel
    ensures PayloadLevel == DebugLevel - 1 && DisabledLevel == -128
  {
  }

  /** The spellings nameToLevel accepts, in lower case. */
  const LowerNames: seq<string> :=
    ["payload", "debug", "info", "warn", "warning", "error", "dpanic", "panic", "fatal"]

  function ToUpperChar(c: char): char
  {
    if 'a' <= c <= 'z' then ((c as int) - 32) as char else c
  }

  function ToUpper(s: string): (r: string)
  {
    seq(|s|, i requires 0 <= i < |s| => ToUpperChar(s[i]))
  }

  /** The same spellings in upper case. */
  const UpperNames: seq<string> :=
    ["PAYLOAD", "DEBUG", "INFO", "WARN", "WARNING", "ERROR", "DPANIC", "PANIC", "FATAL"]

  lemma UpperNamesAreUpperCase()
    ensures |UpperNames| == |LowerNames|
    ensures forall k :: 0 <= k < |LowerNames| ==> UpperNames[k] == ToUpper(LowerNames[k])
  {
    forall k | 0 <= k < |LowerNames|
      ensures UpperNames[k] == ToUpper(LowerNames[k])
    {
      var lower, upper := LowerNames[k], UpperNames[k];
      assert |lower| == |upper|;
      assert forall i :: 0 <= i < |lower| ==> upper[i] == ToUpperChar(lower[i]);
    }
  }

  /** A spelling is accepted when it is one of the names in all lower or all upper case. */
  predicate IsLevelSpelling(s: string)
  {
    s in LowerNames || s in UpperNames
  }

  /** nameToLevel: the level a spelling denotes, or DisabledLevel with an error. */
  function ParseLevelName(name: string): (r: (Level, Option<string>))
    ensures r.1.None? ==> PayloadLevel <= r.0 <= FatalLevel
    ensures r.1.Some? ==> r.0 == DisabledLevel && r.1.value == "invalid log level: " + name
  {
    match name
    case "PAYLOAD" => (PayloadLevel, None)
    case "payload" => (PayloadLevel, None)
    case "DEBUG" => (DebugLevel, None)
    case "debug" => (DebugLevel, None)
    case "INFO" => (InfoLevel, None)
    case "info" => (InfoLevel, None)
    case "WARNING" => (WarnLevel, None)
    case "WARN" => (WarnLevel, None)
    case "warning" => (WarnLevel, None)
    case "warn" => (WarnLevel, None)
    case "ERROR" => (ErrorLevel, None)
    case "error" => (ErrorLevel, None)
    case "DPANIC" => (DPanicLevel, None)
    case "dpanic" => (DPanicLevel, None)
    case "PANIC" => (PanicLevel, None)
    case "panic" => (PanicLevel, None)
    case "FATAL" => (FatalLevel, None)
    case "fatal" => (FatalLevel, None)
    case _ => (DisabledLevel, Some("invalid log level: " + name))
  }

  /** nameToLevel succeeds on exactly the upper- and lower-case spellings of
      the level names; mixed case and every other string are rejected. */
  lemma ParseLevelNameAccepts(name: string)
    ensures ParseLevelName(name).1.None? <==> IsLevelSpelling(name)
  {
  }

  /** The level each name of LowerNames and UpperNames denotes, position by
      position: "warn" and "warning" both denote Warn. */
  const Denoted: seq<Level> :=
    [PayloadLevel, DebugLevel, InfoLevel, WarnLevel, WarnLevel, ErrorLevel, DPanicLevel, PanicLevel, FatalLevel]

  /** Both spellings of every name parse to the level the name denotes:
      "warn" and "warning" to Warn, "payload" to Payload, and so on. */
  lemma ParseLevelNameDenotes(k: nat)
    requires k < |LowerNames|
    ensures |Denoted| == |LowerNames| == |UpperNames|
    ensures ParseLevelName(LowerNames[k]) == (Denoted[k], None)
    ensures ParseLevelName(UpperNames[k]) == (Denoted[k], None)
  {
  }

  predicate IsValidLevel(name: string)
  {
    ParseLevelName(name).1.None?
  }

  /** NameToLevel: the parsed level, falling back to Info for anything unrecognised. */
  function NameToLevel(name: string): (r: Level)
    ensures IsValidLevel(name) ==> r == ParseLevelName(name).0
    ensures !IsValidLevel(name) ==> r == InfoLevel
    ensures PayloadLevel <= r <= FatalLevel
  {
    var (l, err) := ParseLevelName(name);
    if err.Some? then InfoLevel else l
  }

  /** zapcore's Level.String: lower-case name, or "Level(n)" for an unnamed level. */
  function LevelString(l: Level): string
  {
    if l == DebugLevel then "debug"
    else if l == InfoLevel then "info"
    else if l == WarnLevel then "warn"
    else if l == ErrorLevel then "error"
    else if l == DPanicLevel then "dpanic"
    else if l == PanicLevel then "panic"
    else if l == FatalLevel then "fatal"
    else "Level(" + IntToString(l) + ")"
  }

  /** zapcore's Level.CapitalString: upper-case name, or "LEVEL(n)". */
  function CapitalString(l: Level): string
  {
    if l == DebugLevel then "DEBUG"
    else if l == InfoLevel then "INFO"
    else if l == WarnLevel then "WARN"
    else if l == ErrorLevel then "ERROR"
    else if l == DPanicLevel then "DPANIC"
    else if l == PanicLevel then "PANIC"
    else if l == FatalLevel then "FATAL"
    else "LEVEL(" + IntToString(l) + ")"
  }

  /** The levels whose printed name parses back: Debug through Fatal. */
  predicate IsPrintable(l: Level)
  {
    DebugLevel <= l <= FatalLevel
  }

  /** Printing a level and parsing the name back gives the level, for every
      level from Debug to Fatal; every other level prints as a non-name. */
  lemma {:induction false} LevelStringRoundTrip(l: Level)
    ensures IsPrintable(l) ==> IsValidLevel(LevelString(l)) && NameToLevel(LevelString(l)) == l
    ensures !IsPrintable(l) ==> !IsValidLevel(LevelString(l))
  {
    if !IsPrintable(l) {
      var s := LevelString(l);
      assert s[0] == 'L';
      assert forall k :: 0 <= k < |LowerNames| ==> LowerNames[k][0] != 'L' && UpperNames[k][0] != 'L';
      ParseLevelNameAccepts(s);
    }
  }

  /** Printed level names never contain the spec separators ':', '=' or ','. */
  lemma LevelStringSeparatorFree(l: Level)
    requires IsPrintable(l)
    ensures ':' !in LevelString(l) && '=' !in LevelString(l) && ',' !in LevelString(l)
  {
  }
}
