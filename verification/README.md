# clogging: levels, level specs and log-line formatting in Dafny

A model of the logging core of the `common/clogging` package. The model
covers five parts:

- **Levels.** These are zapcore's int8 severities, plus the `Payload` and
  `Disabled` sentinels. The model includes the level-name parser
  (`nameToLevel`, `IsValidLevel`, `NameToLevel`).
- **LoggerLevels.** This is the hierarchical level resolver. It covers:
  - the logger-name grammar;
  - the spec parser `ActivateSpec`, which reads `names=level:level:...`
    text, with its three error messages;
  - the `minLevel` gate;
  - the resolution walk `calculateLevel`, with its memo cache;
  - the canonical text `Spec()`.
- **Colors.** These are the ANSI/ECMA-48 escape sequences written for the
  level colours.
- **Formatters.** This is the pattern language of `ParseFormat`:
  - the directive grammar `%{verb[:arg]}`, found leftmost and without
    overlap;
  - one formatter per literal or directive, and what each one writes;
  - the shared sequence counter, which wraps modulo 2^64;
  - how the cutting of a pattern composes: a directive or a plain literal
    written in front of a pattern adds one piece in front of its pieces.
    This gives a round trip from well-formed pieces to text and back. The
    patterns of the package's formatter tests follow from it, stated with
    their arguments and literals left free.
- **Encoder.** This is the `FormatEncoder` that puts the formatted text in
  front of the record's encoded fields.

The model uses immutable values and pure functions. State changes are
modelled by returning the new state:

- `ActivateSpec` returns the new `LoggerLevels` and an optional error
  message.
- `Level` returns the resolved level and the resolver with its cache
  extended.
- `Render`, `RenderAll` and `EncodeEntry` take the sequence counter and
  return its new value.

A few things are parameters because the model does not interpret them:

- printf with a non-default verb;
- time formatting;
- the wrapped logfmt field encoder.

`"%s"` on a string and `"%d"` on the counter are modelled exactly.

Four behaviours of the code that are easy to misread:

- **Trailing newlines.** The message formatter strips *every* trailing
  newline (`strings.TrimRight`), not just one.
- **Empty segments.** An empty spec segment is not ignored. It sets the
  default level back to Info (`NameToLevel("")`), so `"debug:"` activates
  default Info.
- **Level names.** These are accepted in all-lower-case or all-upper-case
  spellings only (`Debug` is rejected). They are not case-insensitive.
- **Spec order.** `Spec()` sorts the complete `name=level` strings, not
  the names. For example, `a.b=info` sorts before `a=debug`, because `.`
  comes before `=`.

## Model

| member | source | states |
|---|---|---|
| Levels.LevelOrder | common/clogging/levels.go:10-16 | Disabled is MinInt8, Payload is one below Debug, and the named levels are strictly ordered from Disabled up to Fatal |
| Levels.ParseLevelName | common/clogging/levels.go:31-53 | a successful parse yields a level from Payload to Fatal; a failure yields Disabled with the message "invalid log level: " followed by the name |
| Levels.ParseLevelNameDenotes | common/clogging/levels.go:31-53 | both the lower-case and the upper-case spelling of each of the nine names parse to the level the name denotes: "payload" to Payload, "warn" and "warning" both to Warn, and each other name to its own level |
| Levels.ParseLevelNameAccepts | common/clogging/levels.go:31-53 | parsing succeeds exactly on the lower-case or upper-case spellings of the nine level names; every other string, including mixed case, is rejected |
| Levels.UpperNamesAreUpperCase | common/clogging/levels.go:32-48 | each accepted upper-case spelling is the upper-casing of the matching lower-case one |
| Levels.NameToLevel | common/clogging/levels.go:23-29 | a valid name gives its parsed level; anything else falls back to Info; the result always lies between Payload and Fatal |
| Levels.LevelStringRoundTrip | common/clogging/levels.go:18-29 | the printed name of every level from Debug to Fatal is valid and parses back to that level; every other level prints as a non-name |
| Levels.LevelStringSeparatorFree | common/clogging/loggerLevels.go:103-108 | printed level names hold none of the spec delimiters ':', '=' and ',' |
| Strings.JoinSplit | common/clogging/loggerLevels.go:43-44 | joining the pieces of strings.Split with the separator gives the original text back |
| Strings.SplitJoin | common/clogging/loggerLevels.go:106-108 | splitting a join gives the parts back when no part holds the separator |
| Strings.SplitPiecesFree | common/clogging/loggerLevels.go:43-44 | no piece of a split holds the separator |
| Strings.SplitConcat | common/clogging/loggerLevels.go:43-44 | splitting a + sep + b is splitting a and then b |
| Strings.TrimRight | common/clogging/cenc/formatter.go:179-181 | the result is a prefix of the input that does not end in the cut character, and everything removed is that character |
| Strings.TrimSuffix | common/clogging/loggerLevels.go:61 | at most one trailing character is removed, and exactly one when the input ends with it |
| Strings.ParseNatToString | common/clogging/cenc/formatter.go:235-237 | decimal printing of a natural number parses back to that number |
| Strings.LexLeTotal | common/clogging/loggerLevels.go:106 | byte-wise string order is total |
| Strings.LexLeAntisymmetric | common/clogging/loggerLevels.go:106 | byte-wise string order is antisymmetric |
| Strings.LexLeTransitive | common/clogging/loggerLevels.go:106 | byte-wise string order is transitive |
| Colors.Normal | common/clogging/cenc/color.go:25-27 | the sequence is ESC '[' code 'm', and it reads back as exactly that code without bold |
| Colors.Bold | common/clogging/cenc/color.go:29-34 | the no-colour code gives the plain sequence; any other code reads back as that code with the bold parameter |
| Colors.ResetColor | common/clogging/cenc/color.go:36 | the reset sequence is ESC "[0m", that is, parameter 0 without bold |
| Colors.SgrReadsBackExactly | common/clogging/cenc/color.go:25-34 | the plain sequence of a colour, and the bold sequence of a colour other than the no-colour code, are the only texts that read back as their parameters, so the reading-back contracts of Normal and Bold fix the exact bytes |
| Colors.SequencesDistinguish | common/clogging/cenc/color.go:25-36 | distinct colours give distinct plain and bold sequences, and a bold sequence equals a plain one only for the no-colour code |
| Colors.ColorCodes | common/clogging/cenc/color.go:7-18 | black through white are the consecutive codes 30 to 37 |
| Colors.EscapeExamples | common/clogging/cenc/color.go:25-34 | the bytes of the blue, bold red and bold no-colour sequences |
| LoggerLevels.ValidLoggerNameSegments | common/clogging/loggerLevels.go:14 | a name matches the logger-name pattern exactly when it is one or more non-empty runs of name characters joined by single dots |
| LoggerLevels.LoggerNameExamples | common/clogging/loggerLevels.go:14 | the accepted and rejected names from the package's tests |
| LoggerLevels.ValidKeyShape | common/clogging/loggerLevels.go:59-61 | a key that passes the name check after trimming one trailing dot is non-empty and holds neither '=' nor ',' |
| LoggerLevels.SplitLength | common/clogging/loggerLevels.go:44-45 | a segment splits on '=' into one more part than it has '=' characters |
| LoggerLevels.ParseSegment | common/clogging/loggerLevels.go:44-68 | every logger of a successfully parsed names=level segment passes the name check |
| LoggerLevels.ParseSegmentBare | common/clogging/loggerLevels.go:46-50 | a segment without '=' is accepted exactly when it is empty or a level name, and it sets the default; otherwise it is a bad segment |
| LoggerLevels.ParseSegmentOne | common/clogging/loggerLevels.go:51-65 | with one '=', checks run in the source's order: an empty name list ("no logger specified"), then a bad level ("bad segment"), then the first bad logger name; if all pass, the names are the ','-parts before '=' and the level is the name after it |
| LoggerLevels.ParseSegmentMany | common/clogging/loggerLevels.go:66-67 | a segment with two or more '=' is a bad segment |
| LoggerLevels.FirstBadLogger | common/clogging/loggerLevels.go:59-65 | no logger is reported exactly when all names pass; otherwise the reported one is the earliest that fails |
| LoggerLevels.FirstBad | common/clogging/loggerLevels.go:59-64 | the index of the first failing logger name, with every earlier name passing |
| LoggerLevels.ParseSegmentsAppend | common/clogging/loggerLevels.go:43-69 | segments are processed left to right: parsing a + b parses a, then continues with b from the spec built so far |
| LoggerLevels.ParseSegmentsError | common/clogging/loggerLevels.go:43-69 | a spec fails exactly when one of its segments fails on its own, and the reported error is that of the leftmost failing segment |
| LoggerLevels.ParseSegmentsWellFormed | common/clogging/loggerLevels.go:43-69 | from a well-formed start, a successful parse yields only valid, ':'-free keys and levels from Payload to Fatal |
| LoggerLevels.ParsedSegment | common/clogging/loggerLevels.go:51-65 | a segment without ':' that parses yields a level from Payload to Fatal and valid, ':'-free logger names |
| LoggerLevels.ApplyParsed | common/clogging/loggerLevels.go:50-64 | applying a well-formed segment keeps the spec being built well formed |
| LoggerLevels.LoggersFromSegment | common/clogging/loggerLevels.go:44-59 | every logger name of a segment consists of the segment's own characters |
| LoggerLevels.JoinPieceSubset | common/clogging/loggerLevels.go:43-44 | every character of a piece occurs in the joined text |
| LoggerLevels.ParseSpecWellFormed | common/clogging/loggerLevels.go:37-69 | every key of a parsed spec passes the name check and holds no ':', and every level lies between Payload and Fatal |
| LoggerLevels.LastBareSegmentWins | common/clogging/loggerLevels.go:46-50 | appending ':' and a bare level name (or nothing) to a valid spec sets only the default level (Info for nothing) and leaves the per-logger levels alone |
| LoggerLevels.Walk | common/clogging/loggerLevels.go:125-138 | the walk returns the default or the level of some key of the spec |
| LoggerLevels.CalculateLevel | common/clogging/loggerLevels.go:125-138 | resolution returns the default or the level of some key of the spec |
| LoggerLevels.WalkLongestMatch | common/clogging/loggerLevels.go:125-138 | walking back from a dotted prefix yields the level of the longest present prefix at a dot boundary, or the default when there is none |
| LoggerLevels.CalculateLevelLongestMatch | common/clogging/loggerLevels.go:125-138 | a name resolves to the level of the longest key that governs it, or to the default when no key governs it |
| LoggerLevels.GovernsShape | common/clogging/loggerLevels.go:125-138 | a key ending in '.' governs only the logger of exactly that name; any other key governs the logger of that name and all its dotted descendants |
| LoggerLevels.NewLoggerLevels | common/clogging/loggerLevels.go:16-22 | the initial resolver, with default Info and nothing else set, is valid |
| LoggerLevels.MinLevel | common/clogging/loggerLevels.go:71-76 | the result is no greater than the default or any per-logger level, and it is one of them |
| LoggerLevels.ActivateSpec | common/clogging/loggerLevels.go:37-83 | on error the state is unchanged and the exact message is returned; on success the specs and default are replaced, the cache is emptied and minLevel is their minimum |
| LoggerLevels.Level | common/clogging/loggerLevels.go:85-96 | with a consistent cache the answer always equals a fresh resolution; the name is then cached and nothing else changes |
| LoggerLevels.DefaultLevel | common/clogging/loggerLevels.go:25-29 | the default level never lies below the global minimum |
| LoggerLevels.Enabled | common/clogging/loggerLevels.go:111-116 | the gate passes exactly when the default or some per-logger level lets the level through; when it fails, no logger name lets it through |
| LoggerLevels.MinLevelBelowResolved | common/clogging/loggerLevels.go:71-76 | no logger name resolves below minLevel |
| LoggerLevels.CheckEntry | common/clogging/core.go:54 | the global gate followed by the per-logger check passes exactly when the logger's resolved level lets the record through |
| LoggerLevels.Replay | common/clogging/loggerLevels.go:37-96 | every sequence of activations, lookups and checks keeps the cache consistent and minLevel the true minimum |
| SpecString.Fields | common/clogging/loggerLevels.go:101-104 | one "name=level" text per key, in the keys' order |
| SpecString.Insert | common/clogging/loggerLevels.go:106 | inserting into a sorted list adds exactly that key and keeps the list sorted |
| SpecString.SortKeys | common/clogging/loggerLevels.go:106 | the result is a permutation of the keys, sorted by their "name=level" text |
| SpecString.Spec | common/clogging/loggerLevels.go:98-109 | the text is the sorted "name=level" fields of all entries, then the default level's name, joined by ':' |
| SpecString.FieldInjective | common/clogging/loggerLevels.go:103 | distinct keys without '=' give distinct "name=level" texts |
| SpecString.SortedUnique | common/clogging/loggerLevels.go:106 | two sorted lists of the same keys are equal, so the text does not depend on map iteration order |
| SpecString.FieldParses | common/clogging/loggerLevels.go:51-65 | a written "name=level" field parses back as a one-logger segment with that level |
| SpecString.UpdateAll | common/clogging/loggerLevels.go:63-64 | assigning keys in turn gives every listed key its level and leaves other keys alone |
| SpecString.ParseFields | common/clogging/loggerLevels.go:43-69 | parsing the written fields assigns every key its level |
| SpecString.SpecTextRoundTrip | common/clogging/loggerLevels.go:98-109 | parsing the written text of a spec gives the spec back, when every level has a printable name |
| SpecString.SpecReparses | common/clogging/loggerLevels.go:37-109 | for every spec ActivateSpec accepts (without Payload levels), parsing Spec's text gives the same default and entries |
| Formatters.VerbFrom | common/clogging/cenc/formatter.go:19 | a recognised verb is one of the seven and is spelled at the position |
| Formatters.VerbFromComplete | common/clogging/cenc/formatter.go:19 | every verb spelled at a position is the one recognised there |
| Formatters.VerbAtComplete | common/clogging/cenc/formatter.go:19 | every verb spelled at a position is recognised there |
| Formatters.ArgAt | common/clogging/cenc/formatter.go:19 | what follows the verb is "}" or ':' + argument + "}", and the argument holds no '}' and no newline |
| Formatters.ArgAtComplete | common/clogging/cenc/formatter.go:19 | every such well-formed tail is recognised, and recognised whole |
| Formatters.MatchFrontSpelled | common/clogging/cenc/formatter.go:19 | a directive recognised at the front of a text is well formed and spelled there, and the match ends just past its text |
| Formatters.MatchAtSpelled | common/clogging/cenc/formatter.go:19 | a directive recognised at a position is well formed and spelled there, and the match ends just past its text |
| Formatters.MatchWithVerbSpelled | common/clogging/cenc/formatter.go:19 | once "%{" and a verb are read, a recognised directive is well formed and spelled there |
| Formatters.MatchFrontComplete | common/clogging/cenc/formatter.go:19 | every well-formed directive text that opens a text is recognised there, and recognised whole |
| Formatters.MatchWithVerbComplete | common/clogging/cenc/formatter.go:19 | after "%{" and a verb, a well-formed tail completes the match |
| Formatters.MarksSpelled | common/clogging/cenc/formatter.go:25 | every position that holds what is recognised there holds a well-formed directive spelled there, or nothing |
| Formatters.NextMark | common/clogging/cenc/formatter.go:25-32 | the first directive position at or after i, with none in between, or the end of the text |
| Formatters.NextMarkIs | common/clogging/cenc/formatter.go:25-32 | the next directive position is n when none lies before n and n is a directive or the end |
| Formatters.HeadLeads | common/clogging/cenc/formatter.go:25-35 | the piece taken at a position is exactly the one that declaratively leads there: the directive found there, or the maximal directive-free literal |
| Formatters.HeadFit | common/clogging/cenc/formatter.go:25-35 | the piece at each position is spelled there, is not empty, and a literal is followed by a directive or the end |
| Formatters.HeadsFit | common/clogging/cenc/formatter.go:25-35 | the pieces at every position of the text fit |
| Formatters.Lex | common/clogging/cenc/formatter.go:21-57 | the scan produces the leftmost, non-overlapping cutting of the text from where the pending literal began |
| Formatters.LexPending | common/clogging/cenc/formatter.go:32-35 | a pending non-empty literal goes in front of the rest of the cutting |
| Formatters.LexDirective | common/clogging/cenc/formatter.go:32-48 | a matched directive goes in front of the cutting that continues just past it |
| Formatters.Tokenize | common/clogging/cenc/formatter.go:21-57 | the pieces of a pattern are its leftmost cutting |
| Formatters.CutUnique | common/clogging/cenc/formatter.go:25-49 | two cuttings from the same position are equal |
| Formatters.TokenizeIsLexed | common/clogging/cenc/formatter.go:21-57 | Tokenize gives a list exactly when that list is the leftmost cutting of the text |
| Formatters.CutConcat | common/clogging/cenc/formatter.go:32-54 | writing the pieces of a cutting back out gives the text they were cut from |
| Formatters.CutAt | common/clogging/cenc/formatter.go:25-49 | the m-th piece of a cutting is the piece at some position, and the next piece is the one just past it |
| Formatters.CutShape | common/clogging/cenc/formatter.go:32-54 | literals are never empty and never adjacent, and every directive is well formed |
| Formatters.TokenizePartition | common/clogging/cenc/formatter.go:21-57 | the pieces spell the pattern, alternate between literal and directive text, and hold only well-formed directives |
| Formatters.TokenizeNoDirective | common/clogging/cenc/formatter.go:51-54 | text without a directive is a single literal (or nothing when empty) |
| PatternSplicing.MatchAtShift | common/clogging/cenc/formatter.go:19 | what is recognised at a position depends only on the text from there on: text written in front only moves the match |
| PatternSplicing.MatchOpens | common/clogging/cenc/formatter.go:19 | a directive is recognised only where a '%' is written |
| PatternSplicing.OpensWithDirective | common/clogging/cenc/formatter.go:19 | a well-formed directive at the start of a pattern is recognised there, and recognised whole |
| PatternSplicing.MarksOfSuffix | common/clogging/cenc/formatter.go:25 | the directives found in the tail of a text are those found in the tail alone, moved by the length of the front |
| PatternSplicing.HeadShift | common/clogging/cenc/formatter.go:25-35 | the piece taken inside the tail of a text is the one taken in the tail alone, moved by the length of the front |
| PatternSplicing.CutShift | common/clogging/cenc/formatter.go:25-49 | a cutting of the tail alone is a cutting of the whole text from where the tail starts |
| PatternSplicing.CutOfSuffix | common/clogging/cenc/formatter.go:25-49 | the pieces of a tail continue the cutting of any text that ends in it |
| PatternSplicing.DirectiveInFront | common/clogging/cenc/formatter.go:25-49 | a well-formed directive written in front of a pattern adds exactly that directive in front of the pattern's pieces |
| PatternSplicing.LiteralInFront | common/clogging/cenc/formatter.go:32-35 | text without '%' written in front of a pattern that is empty or opens with a directive adds exactly one literal piece in front |
| PatternSplicing.PlainTokens | common/clogging/cenc/formatter.go:51-54 | text without '%' is one literal piece, or none when empty |
| PatternSplicing.TokenizeConcat | common/clogging/cenc/formatter.go:21-57 | writing out well-formed pieces (literals without '%', never two literals in a row) and cutting the text again gives the same pieces back |
| PatternSplicing.ParseFormatConcat | common/clogging/cenc/formatter.go:21-57 | the formatters of such written-out pieces are exactly what the pieces compile to |
| Formatters.NewColorFormatter | common/clogging/cenc/formatter.go:114-125 | succeeds exactly for "", "bold" and "reset", setting bold or reset accordingly; anything else fails with "invalid color option: " and the option |
| Formatters.NewFormatter | common/clogging/cenc/formatter.go:59-78 | fails exactly for an unknown verb or a bad colour option; otherwise the formatter has the verb's kind and takes "%" plus the argument, defaulting to "s", "d", or the RFC 3339 layout for time |
| Formatters.Compile | common/clogging/cenc/formatter.go:26-57 | fails exactly when some piece is a bad colour directive, with the first such error; otherwise one formatter per piece |
| Formatters.ParseFormatResult | common/clogging/cenc/formatter.go:21-57 | ParseFormat fails exactly on a bad colour option, naming the first one, and never returns a partial list; on success each literal becomes a StringFormatter holding it verbatim |
| FormatExamples.CompilePointwise | common/clogging/cenc/formatter.go:26-49 | when every piece builds its formatter, the list is those formatters in order |
| FormatExamples.TimeColorPattern | common/clogging/cenc/formatter_test.go:30-38 | "%{time:<layout>}%{color:bold}" gives a time formatter with that layout and a bold colour formatter |
| FormatExamples.UnknownColorPattern | common/clogging/cenc/formatter_test.go:39-44 | "%{color:<option>}" with an option other than "", "bold" and "reset" fails with "invalid color option: " and the option |
| FormatExamples.MessageModulePattern | common/clogging/cenc/formatter_test.go:45-55 | "%{message:4s},xxx%{module:6s}:haha", arguments and literals left free, gives message, literal, module and literal formatters with "%" in front of each argument |
| FormatExamples.LevelIdShortFuncPattern | common/clogging/cenc/formatter_test.go:56-65 | "%{level:s}%{id:.4f}%{shortfunc:v}", arguments left free, gives level, sequence and short-function formatters with "%" in front of each argument |
| FormatExamples.ColorsPattern | common/clogging/cenc/formatter_test.go:89-91 | "%{color:bold}%{color:reset}%{color}" gives bold, reset and plain colour formatters |
| Formatters.LevelColor | common/clogging/cenc/formatter.go:127-142 | no colour exactly outside Debug..Fatal, a foreground code otherwise, and magenta from DPanic up |
| Formatters.LevelColors | common/clogging/cenc/formatter.go:127-136 | Debug is cyan, Info blue, Warn yellow and Error red |
| Formatters.ShortFuncName | common/clogging/cenc/formatter.go:199-201 | the result holds no '.' and is the suffix of the symbol after its last dot (the whole symbol when there is none) |
| Formatters.Render | common/clogging/cenc/formatter.go:144-262 | what each formatter writes: the literal text, the colour sequence of the level, the capitalised level, the message without trailing newlines, the short function name or "(unknown)", the logger name, and the counter advanced by one (mod 2^64) for the id |
| Formatters.RenderAll | common/clogging/cenc/formatter.go:93-99 | running the formatters in order advances the counter once per sequence formatter, modulo 2^64 |
| Formatters.RenderAllAppend | common/clogging/cenc/formatter.go:93-99 | running a + b is running a, then b from where the counter was left, with the outputs concatenated |
| Formatters.SetFormattersReplaces | common/clogging/cenc/formatter.go:101-105 | after SetFormatters only the new list decides the output |
| Formatters.SequenceRenders | common/clogging/cenc/formatter.go:221-237 | after SetSequence(s), the k-th render of "%{id}" prints s+k+1 in decimal, modulo 2^64 |
| Formatters.SequenceDistinct | common/clogging/cenc/formatter.go:221-237 | up to 2^64 successive renders of "%{id}" print pairwise distinct numbers |
| Formatters.EmptyPattern | common/clogging/cenc/formatter.go:51-56 | the empty pattern has no formatters |
| Formatters.PlainPattern | common/clogging/cenc/formatter.go:51-54 | a non-empty pattern without '%' is one StringFormatter holding the whole pattern |
| Encoder.Clone | common/clogging/cenc/encoder.go:42-48 | the clone shares the formatters and encodes fields like the original |
| Encoder.CloneEncodesAlike | common/clogging/cenc/encoder.go:42-48 | a clone encodes every record exactly like the original |
| Encoder.Separator | common/clogging/cenc/encoder.go:60-62 | a space exactly when the formatters wrote something and the encoded fields are not a single character |
| Encoder.EncodeEntry | common/clogging/cenc/encoder.go:50-67 | the formatters always run and advance the counter; a field-encoding error is returned as is; otherwise the line is the formatted text, then one space only if it is non-empty and the fields are not a single character, then the encoded fields |
| Encoder.IsLineUnique | common/clogging/cenc/encoder.go:60-63 | the shape of the line fixes it: two texts with the same front, fields and gap are equal |
| Encoder.EncodeEntryShapes | common/clogging/cenc/encoder.go:60-63 | without fields (encoded text "\n") the line is the formatted text and "\n"; with fields and formatted text they are joined by one space; with no formatted text the line is the encoded fields |

## Left out

- Mutexes and atomics (`sync.RWMutex`, `sync.Mutex`, `atomic.AddUint64`) are not modelled, because the model is sequential and every operation is one atomic step. The sequence counter is an explicit value that callers pass along.
- The writes to `io.Writer` and the `buffer.Pool` are not modelled. Output is returned as a string, and pooling does not change the result.
- The wrapped zap-logfmt encoder (encoder.go 22-40) is not modelled. Its `EncodeEntry` is a function parameter (`FieldEncoder`), and its other `zapcore.Encoder` methods are outside this core.
- printf with a verb other than `%s`/`%d`, and `time.Time.Format`, are not modelled, because they are Go standard-library formatting. They are function parameters (`Printer`).
- `runtime.FuncForPC` is not modelled. It is replaced by the caller symbol carried in the entry, or None when the runtime reports none.
- zapcore's `Level.String`/`CapitalString` are reproduced as tables. zapcore is not part of this model.
- Render: the time formatter's output is whatever the `Printer` says. Nothing about time layouts is stated.
- SpecString.SpecTextRoundTrip: holds only for levels from Debug to Fatal. Payload prints as "Level(-2)", which the parser rejects.
- LoggerLevels.NewLoggerLevels: starts with an empty cache. Go's zero value has a nil cache map, so `Level` would panic writing it before the first `ActivateSpec`. The model does not model that panic.
- logging.go, global.go, zap.go, core.go (apart from the one check modelled by `CheckEntry`) and the metrics observer are not modelled. They are callers and wiring around the core.
- PatternSplicing.TokenizeConcat: the round trip is stated only for literals without '%'. A literal holding a '%' that opens no directive also reads back unchanged, but that case is not covered.
