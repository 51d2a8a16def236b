/** The hierarchical level resolver of common/clogging/loggerLevels.go: the
    logger-name grammar, the level-spec parser, longest-dotted-prefix
    resolution with a memo cache, the global `minLevel` gate and the
    canonical re-serialisation of the active spec. */
module LoggerLevels {
  import opened Wrappers
  import opened Strings
  import opened Levels

  // ---------------------------------------------------------------------------
  // Logger names

  /** A character of `[[:alnum:]_#:-]`. */
  predicate IsNameChar(c: char)
  {
    ('a' <= c <= 'z') || ('A' <= c <= 'Z') || ('0' <= c <= '9')
    || c == '_' || c == '#' || c == ':' || c == '-'
  }

  /** loggerNameRegexp `^[[:alnum:]_#:-]+(\.[[:alnum:]_#:-]+)*$`: name
      characters and dots, no dot at either end and no two dots in a row. */
  predicate IsValidLoggerName(s: string)
  {
    && |s| > 0
    && s[0] != '.'
    && s[|s| - 1] != '.'
    && (forall i :: 0 <= i < |s| ==> IsNameChar(s[i]) || s[i] == '.')
    && (forall i :: 0 <= i < |s| - 1 && s[i] == '.' ==> s[i + 1] != '.')
  }

  /** One dot-free piece of a logger name. */
  predicate IsNameSegment(seg: string)
  {
    |seg| > 0 && forall i :: 0 <= i < |seg| ==> IsNameChar(seg[i])
  }

  /** Peeling the first segment off a name that contains a dot. */
  lemma ValidLoggerNameStep(s: string, i: int)
    requires 0 <= i < |s| && s[i] == '.'
    requires forall j :: 0 <= j < i ==> s[j] != '.'
    ensures IsValidLoggerName(s) <==> IsNameSegment(s[..i]) && IsValidLoggerName(s[i + 1..])
  {
    var head, tail := s[..i], s[i + 1..];
    if IsValidLoggerName(s) {
      assert i > 0;
      assert i + 1 < |s|;
      assert tail[0] == s[i + 1];
      assert forall j :: 0 <= j < |tail| ==> tail[j] == s[i + 1 + j];
    }
    if IsNameSegment(head) && IsValidLoggerName(tail) {
      assert forall j :: 0 <= j < |tail| ==> tail[j] == s[i + 1 + j];
      forall j | 0 <= j < |s| - 1 && s[j] == '.'
        ensures s[j + 1] != '.'
      {
        if j > i {
          assert tail[j - i - 1] == '.';
        } else {
          assert j == i;
          assert s[j + 1] == tail[0];
        }
      }
    }
  }

  predicate AllNameSegments(parts: seq<string>)
  {
    forall k :: 0 <= k < |parts| ==> IsNameSegment(parts[k])
  }

  lemma DotFreeName(s: string)
    requires forall j :: 0 <= j < |s| ==> s[j] != '.'
    ensures IsValidLoggerName(s) <==> IsNameSegment(s)
  {
    if IsNameSegment(s) {
      assert s[0] != '.' && s[|s| - 1] != '.';
    }
  }

  lemma AllNameSegmentsCons(head: string, rest: seq<string>)
    ensures AllNameSegments([head] + rest) <==> IsNameSegment(head) && AllNameSegments(rest)
  {
    var parts := [head] + rest;
    assert parts[0] == head;
    assert forall k :: 0 <= k < |rest| ==> parts[k + 1] == rest[k];
    if IsNameSegment(head) && AllNameSegments(rest) {
      forall k | 0 <= k < |parts|
        ensures IsNameSegment(parts[k])
      {
        if k > 0 {
          assert parts[k] == rest[k - 1];
        }
      }
    }
  }

  /** The name grammar is "one or more non-empty segments of name characters,
      joined by single dots". */
  lemma {:induction false} ValidLoggerNameSegments(s: string)
    ensures IsValidLoggerName(s) <==> AllNameSegments(Split(s, '.'))
    decreases |s|
  {
    var i := IndexOf(s, '.');
    if i < 0 {
      SplitNoSeparator(s, '.');
      DotFreeName(s);
      AllNameSegmentsCons(s, []);
      assert [s] + [] == [s];
    } else {
      ValidLoggerNameStep(s, i);
      ValidLoggerNameSegments(s[i + 1..]);
      SplitAt(s, '.', i);
      AllNameSegmentsCons(s[..i], Split(s[i + 1..], '.'));
    }
  }

  /** The names of common/clogging/ragexp_test.go and logging_test.go. */
  lemma LoggerNameExamples()
    ensures IsValidLoggerName("logger") && IsValidLoggerName("_") && IsValidLoggerName("logger.name")
    ensures IsValidLoggerName("logger_#-:._") && IsValidLoggerName("_._") && IsValidLoggerName("_.:")
    ensures IsValidLoggerName(":")
    ensures !IsValidLoggerName("._") && !IsValidLoggerName("a._.") && !IsValidLoggerName("a.:.")
    ensures !IsValidLoggerName("test*") && !IsValidLoggerName(".test") && !IsValidLoggerName("test.")
    ensures !IsValidLoggerName(".") && !IsValidLoggerName("")
  {
    assert "test*"[4] == '*';
  }

  /** A key of a `names=level` segment: a valid name once one trailing dot is trimmed. */
  predicate IsValidKey(logger: string)
  {
    IsValidLoggerName(TrimSuffix(logger, '.'))
  }

  /** Keys never hold the characters that delimit a spec segment other than ':'. */
  lemma ValidKeyShape(logger: string)
    requires IsValidKey(logger)
    ensures |logger| > 0 && '=' !in logger && ',' !in logger
  {
    var t := TrimSuffix(logger, '.');
    assert forall i :: 0 <= i < |logger| ==> i < |t| || logger[i] == '.';
  }

  // ---------------------------------------------------------------------------
  // Level specs

  datatype SpecError =
    | BadSegment(segment: string)
    | NoLoggerSpecified(segment: string)
    | BadLoggerName(logger: string)

  /** The exact error text ActivateSpec returns. */
  function ErrorMessage(spec: string, e: SpecError): string
  {
    "invalid logging specification '" + spec + "': "
    + match e
      case BadSegment(seg) => "bad segment '" + seg + "'"
      case NoLoggerSpecified(seg) => "no logger specified in segment '" + seg + "'"
      case BadLoggerName(logger) => "bad logger name '" + logger + "'"
  }

  /** A default level and the per-logger levels: the result of parsing a spec. */
  datatype LevelSpec = LevelSpec(defaultLevel: Level, specs: map<string, Level>)

  /** One ':'-separated segment, once validated. */
  datatype Segment =
    | DefaultSegment(level: Level)
    | LoggersSegment(loggers: seq<string>, level: Level)

  function CountOf(s: string, c: char): nat
  {
    if |s| == 0 then 0 else (if s[0] == c then 1 else 0) + CountOf(s[1..], c)
  }

  lemma {:induction false} SplitLength(s: string, c: char)
    ensures |Split(s, c)| == CountOf(s, c) + 1
    decreases |s|
  {
    var i := IndexOf(s, c);
    if i < 0 {
      NoOccurrence(s, c);
    } else {
      SplitLength(s[i + 1..], c);
      CountAt(s, c, i);
    }
  }

  lemma {:induction false} NoOccurrence(s: string, c: char)
    requires forall j :: 0 <= j < |s| ==> s[j] != c
    ensures CountOf(s, c) == 0
  {
    if |s| > 0 {
      NoOccurrence(s[1..], c);
    }
  }

  lemma {:induction false} CountAt(s: string, c: char, i: int)
    requires 0 <= i < |s| && s[i] == c
    requires forall j :: 0 <= j < i ==> s[j] != c
    ensures CountOf(s, c) == 1 + CountOf(s[i + 1..], c)
  {
    if i > 0 {
      CountAt(s[1..], c, i - 1);
      assert s[1..][i..] == s[i + 1..];
    } else {
      assert s[1..] == s[i + 1..];
    }
  }

  /** The checks one segment goes through, in the order the source makes them:
      the segment is split on '='; one part is a bare level (or nothing, which
      selects Info), two parts are `names=level`, anything more is malformed.
      The source also requires the segment to be non-empty before checking the
      level of a `names=level` segment, which always holds once it holds '='. */
  function ParseSegment(seg: string): (r: Result<Segment, SpecError>)
    ensures r.Success? && r.value.LoggersSegment? ==> forall k :: 0 <= k < |r.value.loggers| ==> IsValidKey(r.value.loggers[k])
  {
    var split := Split(seg, '=');
    if |split| == 1 then
      if seg != "" && !IsValidLevel(seg) then Failure(BadSegment(seg))
      else Success(DefaultSegment(NameToLevel(seg)))
    else if |split| == 2 then
      if split[0] == "" then Failure(NoLoggerSpecified(seg))
      else if !IsValidLevel(split[1]) then Failure(BadSegment(seg))
      else
        var loggers := Split(split[0], ',');
        match FirstBadLogger(loggers)
        case Some(logger) => Failure(BadLoggerName(logger))
        case None => Success(LoggersSegment(loggers, NameToLevel(split[1])))
    else Failure(BadSegment(seg))
  }

  /** A segment without '=' is a bare level: the empty segment and every level
      name are accepted, anything else is a bad segment. */
  lemma ParseSegmentBare(seg: string)
    requires CountOf(seg, '=') == 0
    ensures seg == "" || IsValidLevel(seg) ==> ParseSegment(seg) == Success(DefaultSegment(NameToLevel(seg)))
    ensures seg != "" && !IsValidLevel(seg) ==> ParseSegment(seg) == Failure(BadSegment(seg))
  {
    SplitLength(seg, '=');
  }

  /** A segment with two or more '=' is always a bad segment. */
  lemma ParseSegmentMany(seg: string)
    requires CountOf(seg, '=') >= 2
    ensures ParseSegment(seg) == Failure(BadSegment(seg))
  {
    SplitLength(seg, '=');
  }

  /** A segment with exactly one '=' at position i: an empty name list is
      reported first, then a bad level, then the first bad logger name; when
      all pass, the names are the ','-separated parts before the '='. */
  lemma ParseSegmentOne(seg: string)
    requires CountOf(seg, '=') == 1
    ensures 0 <= IndexOf(seg, '=') < |seg|
    ensures var i := IndexOf(seg, '=');
      if i == 0 then ParseSegment(seg) == Failure(NoLoggerSpecified(seg))
      else if !IsValidLevel(seg[i + 1..]) then ParseSegment(seg) == Failure(BadSegment(seg))
      else match FirstBadLogger(Split(seg[..i], ','))
        case Some(logger) => ParseSegment(seg) == Failure(BadLoggerName(logger))
        case None => ParseSegment(seg) == Success(LoggersSegment(Split(seg[..i], ','), NameToLevel(seg[i + 1..])))
  {
    SplitLength(seg, '=');
    var i := IndexOf(seg, '=');
    var split := Split(seg, '=');
    assert split == [seg[..i]] + Split(seg[i + 1..], '=');
    assert split[1] == seg[i + 1..] by {
      CountAt(seg, '=', i);
      SplitLength(seg[i + 1..], '=');
      JoinSplit(seg[i + 1..], '=');
    }
  }

  /** The first logger of the list that fails the name check, if any. */
  function FirstBadLogger(loggers: seq<string>): (r: Option<string>)
    ensures r.None? <==> forall k :: 0 <= k < |loggers| ==> IsValidKey(loggers[k])
    ensures r.Some? ==> r.value == loggers[FirstBad(loggers)] && !IsValidKey(r.value)
  {
    var b := FirstBad(loggers);
    if b < |loggers| then Some(loggers[b]) else None
  }

  /** The position of the first logger that fails the name check, or the
      length of the list when every name passes. */
  function FirstBad(loggers: seq<string>): (r: nat)
    ensures r <= |loggers|
    ensures forall j :: 0 <= j < r ==> IsValidKey(loggers[j])
    ensures r < |loggers| ==> !IsValidKey(loggers[r])
  {
    if |loggers| == 0 || !IsValidKey(loggers[0]) then 0
    else
      var r := FirstBad(loggers[1..]);
      assert forall j :: 1 <= j < r + 1 ==> loggers[j] == loggers[1..][j - 1];
      r + 1
  }

  /** What a validated segment does to the spec being built: a bare level sets
      the default, `names=level` maps every name to the level. */
  function ApplySegment(seg: Segment, acc: LevelSpec): (r: LevelSpec)
  {
    match seg
    case DefaultSegment(l) => acc.(defaultLevel := l)
    case LoggersSegment(loggers, l) => acc.(specs := acc.specs + map k | k in loggers :: l)
  }

  /** Segments are processed left to right; the first failing one aborts. */
  function ParseSegments(segments: seq<string>, acc: LevelSpec): Result<LevelSpec, SpecError>
    decreases |segments|
  {
    if |segments| == 0 then Success(acc)
    else
      match ParseSegment(segments[0])
      case Failure(e) => Failure(e)
      case Success(seg) => ParseSegments(segments[1..], ApplySegment(seg, acc))
  }

  /** The parsing half of ActivateSpec: default Info, no per-logger levels,
      then every ':'-separated segment in turn. */
  function ParseSpec(spec: string): Result<LevelSpec, SpecError>
  {
    ParseSegments(Split(spec, ':'), LevelSpec(InfoLevel, map[]))
  }

  /** Parsing a concatenation of segment lists parses the first list, then the second. */
  lemma {:induction false} ParseSegmentsAppend(a: seq<string>, b: seq<string>, acc: LevelSpec)
    ensures ParseSegments(a + b, acc) ==
      match ParseSegments(a, acc)
      case Failure(e) => Failure(e)
      case Success(mid) => ParseSegments(b, mid)
    decreases |a|
  {
    if |a| > 0 {
      assert (a + b)[0] == a[0];
      assert (a + b)[1..] == a[1..] + b;
      if ParseSegment(a[0]).Success? {
        ParseSegmentsAppend(a[1..], b, ApplySegment(ParseSegment(a[0]).value, acc));
      }
    } else {
      assert a + b == b;
    }
  }

  /** Errors: a spec fails exactly when one of its segments fails on its own,
      and the error reported is that of the leftmost failing segment. */
  lemma {:induction false} ParseSegmentsError(segments: seq<string>, acc: LevelSpec)
    ensures ParseSegments(segments, acc).Failure? <==>
      exists i :: 0 <= i < |segments| && ParseSegment(segments[i]).Failure?
    ensures ParseSegments(segments, acc).Failure? ==>
      exists i :: 0 <= i < |segments| && ParseSegment(segments[i]).Failure?
        && ParseSegments(segments, acc).error == ParseSegment(segments[i]).error
        && forall j :: 0 <= j < i ==> ParseSegment(segments[j]).Success?
    decreases |segments|
  {
    if |segments| > 0 && ParseSegment(segments[0]).Success? {
      var rest := segments[1..];
      ParseSegmentsError(rest, ApplySegment(ParseSegment(segments[0]).value, acc));
      assert forall i :: 1 <= i < |segments| ==> segments[i] == rest[i - 1];
      if ParseSegments(segments, acc).Failure? {
        var i :| 0 <= i < |rest| && ParseSegment(rest[i]).Failure?
          && ParseSegments(rest, ApplySegment(ParseSegment(segments[0]).value, acc)).error == ParseSegment(rest[i]).error
          && forall j :: 0 <= j < i ==> ParseSegment(rest[j]).Success?;
        assert segments[i + 1] == rest[i];
      }
    }
  }

  /** Well-formedness of what a successful parse produces. */
  predicate IsParsedSpec(ls: LevelSpec)
  {
    && PayloadLevel <= ls.defaultLevel <= FatalLevel
    && forall k :: k in ls.specs ==> IsValidKey(k) && ':' !in k && PayloadLevel <= ls.specs[k] <= FatalLevel
  }

  /** Well-formedness of one validated segment that held no ':'. */
  predicate IsParsedSegment(seg: Segment)
  {
    && PayloadLevel <= seg.level <= FatalLevel
    && (seg.LoggersSegment? ==> forall k :: k in seg.loggers ==> IsValidKey(k) && ':' !in k)
  }

  /** Every key of a parsed spec passed the name check and holds no ':', and
      every level is a named one between Payload and Fatal. */
  lemma {:induction false} ParseSegmentsWellFormed(segments: seq<string>, acc: LevelSpec)
    requires forall i :: 0 <= i < |segments| ==> ':' !in segments[i]
    requires IsParsedSpec(acc)
    ensures ParseSegments(segments, acc).Success? ==> IsParsedSpec(ParseSegments(segments, acc).value)
    decreases |segments|
  {
    if |segments| > 0 && ParseSegment(segments[0]).Success? {
      var seg := ParseSegment(segments[0]).value;
      ParsedSegment(segments[0]);
      ApplyParsed(seg, acc);
      ParseSegmentsWellFormed(segments[1..], ApplySegment(seg, acc));
    }
  }

  /** A segment without ':' that validates is well formed. */
  lemma ParsedSegment(text: string)
    requires ':' !in text && ParseSegment(text).Success?
    ensures IsParsedSegment(ParseSegment(text).value)
  {
    if ParseSegment(text).value.LoggersSegment? {
      LoggersFromSegment(text);
    }
  }

  /** Applying a well-formed segment keeps the spec being built well formed. */
  lemma ApplyParsed(seg: Segment, acc: LevelSpec)
    requires IsParsedSegment(seg) && IsParsedSpec(acc)
    ensures IsParsedSpec(ApplySegment(seg, acc))
  {
  }

  /** The logger names of a segment are made of the segment's own characters. */
  lemma LoggersFromSegment(seg: string)
    requires ParseSegment(seg).Success? && ParseSegment(seg).value.LoggersSegment?
    ensures forall k, c :: k in ParseSegment(seg).value.loggers && c in k ==> c in seg
  {
    var split := Split(seg, '=');
    JoinSplit(seg, '=');
    JoinPieceSubset(split, '=', split[0]);
    JoinSplit(split[0], ',');
    forall k | k in Split(split[0], ',')
      ensures forall c :: c in k ==> c in seg
    {
      JoinPieceSubset(Split(split[0], ','), ',', k);
    }
  }

  /** Every character of a joined piece occurs in the join. */
  lemma {:induction false} JoinPieceSubset(parts: seq<string>, sep: char, piece: string)
    requires piece in parts
    ensures forall c :: c in piece ==> c in Join(parts, sep)
  {
    if |parts| > 1 && piece != parts[0] {
      JoinPieceSubset(parts[1..], sep, piece);
    }
  }

  lemma ParseSpecWellFormed(spec: string)
    ensures ParseSpec(spec).Success? ==> IsParsedSpec(ParseSpec(spec).value)
  {
    SplitPiecesFree(spec, ':');
    ParseSegmentsWellFormed(Split(spec, ':'), LevelSpec(InfoLevel, map[]));
  }

  /** Appending a bare segment (a level name, or nothing) to a valid spec sets
      the default to that level (Info for the empty segment) and changes
      nothing else: the last bare segment wins. */
  lemma LastBareSegmentWins(spec: string, bare: string)
    requires ParseSpec(spec).Success?
    requires bare == "" || IsValidLevel(bare)
    ensures ParseSpec(spec + ":" + bare).Success?
    ensures ParseSpec(spec + ":" + bare).value
         == ParseSpec(spec).value.(defaultLevel := NameToLevel(bare))
  {
    ValidLevelSeparatorFree(bare);
    assert spec + ":" + bare == spec + [':'] + bare;
    SplitConcat(spec, bare, ':');
    SplitNoSeparator(bare, ':');
    NoOccurrence(bare, '=');
    ParseSegmentBare(bare);
    ParseSegmentsAppend(Split(spec, ':'), [bare], LevelSpec(InfoLevel, map[]));
  }

  lemma SplitNoSeparator(s: string, c: char)
    requires forall j :: 0 <= j < |s| ==> s[j] != c
    ensures Split(s, c) == [s]
  {
  }

  /** Level names (and the empty segment) hold none of the spec delimiters. */
  lemma ValidLevelSeparatorFree(name: string)
    requires name == "" || IsValidLevel(name)
    ensures forall j :: 0 <= j < |name| ==> name[j] != ':' && name[j] != '=' && name[j] != ','
  {
    if name != "" {
      ParseLevelNameAccepts(name);
    }
  }

  // ---------------------------------------------------------------------------
  // Resolution

  /** The walk of calculateLevel: look the candidate up, else cut it at its
      last dot, and give up with the default once no dot is left past the
      first character. */
  function Walk(specs: map<string, Level>, defaultLevel: Level, candidate: string): (r: Level)
    ensures r == defaultLevel || exists k :: k in specs && r == specs[k]
    decreases |candidate|
  {
    if candidate in specs then specs[candidate]
    else
      var idx := LastIndexOf(candidate, '.');
      if idx <= 0 then defaultLevel else Walk(specs, defaultLevel, candidate[..idx])
  }

  /** calculateLevel: the walk starts from the name with a dot appended. */
  function CalculateLevel(specs: map<string, Level>, defaultLevel: Level, name: string): (r: Level)
    ensures r == defaultLevel || exists k :: k in specs && r == specs[k]
  {
    Walk(specs, defaultLevel, name + ".")
  }

  /** `j` ends a dotted prefix of `m`: a cut just before a dot, or the whole of `m`. */
  predicate IsBoundary(m: string, j: int)
  {
    0 < j <= |m| && (j == |m| || m[j] == '.')
  }

  /** A key governs a logger when it is the name with a dot appended (that
      logger only), the name itself, or one of its dotted ancestors. */
  predicate Governs(k: string, name: string)
  {
    var m := name + ".";
    IsBoundary(m, |k|) && k == m[..|k|]
  }

  lemma {:induction false} WalkLongestMatch(specs: map<string, Level>, d: Level, m: string, j: int)
    requires IsBoundary(m, j)
    ensures (forall j' :: IsBoundary(m, j') && j' <= j ==> m[..j'] !in specs) ==> Walk(specs, d, m[..j]) == d
    ensures forall j' :: IsBoundary(m, j') && j' <= j && m[..j'] in specs
              && (forall j'' :: IsBoundary(m, j'') && j' < j'' <= j ==> m[..j''] !in specs)
              ==> Walk(specs, d, m[..j]) == specs[m[..j']]
    decreases j
  {
    var c := m[..j];
    if c !in specs {
      var idx := LastIndexOf(c, '.');
      assert forall p :: idx < p < j ==> m[p] != '.' by {
        assert forall p :: idx < p < j ==> c[p] == m[p];
      }
      if idx > 0 {
        assert c[..idx] == m[..idx];
        WalkLongestMatch(specs, d, m, idx);
      }
    }
  }

  /** Resolution is longest-dotted-prefix matching: the level of the longest
      governing key, or the default when no key governs the name. */
  lemma CalculateLevelLongestMatch(specs: map<string, Level>, d: Level, name: string)
    ensures (forall k :: k in specs ==> !Governs(k, name)) ==> CalculateLevel(specs, d, name) == d
    ensures forall k :: k in specs && Governs(k, name)
              && (forall k' :: k' in specs && Governs(k', name) ==> |k'| <= |k|)
              ==> CalculateLevel(specs, d, name) == specs[k]
  {
    var m := name + ".";
    assert m[..|m|] == m;
    WalkLongestMatch(specs, d, m, |m|);
    forall k | k in specs && Governs(k, name)
              && (forall k' :: k' in specs && Governs(k', name) ==> |k'| <= |k|)
      ensures CalculateLevel(specs, d, name) == specs[k]
    {
      forall j'' | IsBoundary(m, j'') && |k| < j'' <= |m|
        ensures m[..j''] !in specs
      {
        assert m[..j''] in specs ==> Governs(m[..j''], name);
      }
    }
    if forall k :: k in specs ==> !Governs(k, name) {
      forall j' | IsBoundary(m, j') && j' <= |m|
        ensures m[..j'] !in specs
      {
        assert Governs(m[..j'], name);
      }
    }
  }

  /** For a valid logger name, a key with a trailing dot governs exactly that
      one logger, and a plain key governs the logger and its descendants. */
  lemma GovernsShape(k: string, name: string)
    requires IsValidLoggerName(name) && |k| > 0
    ensures k[|k| - 1] == '.' ==> (Governs(k, name) <==> k == name + ".")
    ensures k[|k| - 1] != '.' ==>
      (Governs(k, name) <==> k == name || (|k| < |name| && name[..|k|] == k && name[|k|] == '.'))
  {
    var m := name + ".";
    assert forall i :: 0 <= i < |name| ==> m[i] == name[i];
    if Governs(k, name) {
      assert forall i :: 0 <= i < |k| ==> k[i] == m[i];
      if |k| <= |name| {
        assert k == name[..|k|];
      }
    }
    if |k| < |name| && name[..|k|] == k && name[|k|] == '.' {
      assert m[..|k|] == k;
    }
    if k == name {
      assert m[..|k|] == name;
    }
    if k == m {
      assert m[..|k|] == k;
    }
  }

  // ---------------------------------------------------------------------------
  // Resolver state

  /** LoggerLevels: the active spec, its minimum level and the memo cache. */
  datatype LoggerLevels = LoggerLevels(
    levelCache: map<string, Level>,
    specs: map<string, Level>,
    defaultLevel: Level,
    minLevel: Level)

  /** `m` is the least of the default and of every per-logger level. */
  predicate IsMinLevel(m: Level, defaultLevel: Level, specs: map<string, Level>)
  {
    && m <= defaultLevel
    && (forall k :: k in specs ==> m <= specs[k])
    && (m == defaultLevel || exists k :: k in specs && specs[k] == m)
  }

  /** Every cached level is what a fresh resolution would give. */
  predicate CacheConsistent(st: LoggerLevels)
  {
    forall n :: n in st.levelCache ==> st.levelCache[n] == CalculateLevel(st.specs, st.defaultLevel, n)
  }

  predicate Valid(st: LoggerLevels)
  {
    IsMinLevel(st.minLevel, st.defaultLevel, st.specs) && CacheConsistent(st)
  }

  /** The resolver as logging.go builds it: default Info, nothing else set. */
  function NewLoggerLevels(): (st: LoggerLevels)
    ensures Valid(st)
  {
    LoggerLevels(map[], map[], InfoLevel, InfoLevel)
  }

  /** The minLevel loop of ActivateSpec. */
  method MinLevel(defaultLevel: Level, specs: map<string, Level>) returns (m: Level)
    ensures IsMinLevel(m, defaultLevel, specs)
  {
    m := defaultLevel;
    var rest := specs.Keys;
    while rest != {}
      invariant rest <= specs.Keys
      invariant m <= defaultLevel
      invariant forall k :: k in specs && k !in rest ==> m <= specs[k]
      invariant m == defaultLevel || exists k :: k in specs && specs[k] == m
      decreases rest
    {
      var k :| k in rest;
      if specs[k] < m {
        m := specs[k];
      }
      rest := rest - {k};
    }
  }

  /** ActivateSpec: all or nothing. On error the state is untouched and the
      exact message is returned; on success the spec, default and minimum are
      replaced and the cache is emptied. */
  method ActivateSpec(st: LoggerLevels, spec: string) returns (st': LoggerLevels, err: Option<string>)
    ensures ParseSpec(spec).Failure? ==>
      st' == st && err == Some(ErrorMessage(spec, ParseSpec(spec).error))
    ensures ParseSpec(spec).Success? ==>
      && err.None?
      && st'.specs == ParseSpec(spec).value.specs
      && st'.defaultLevel == ParseSpec(spec).value.defaultLevel
      && st'.levelCache == map[]
      && Valid(st')
    ensures Valid(st) ==> Valid(st')
  {
    match ParseSpec(spec)
    case Failure(e) =>
      st', err := st, Some(ErrorMessage(spec, e));
    case Success(parsed) =>
      var m := MinLevel(parsed.defaultLevel, parsed.specs);
      st' := LoggerLevels(map[], parsed.specs, parsed.defaultLevel, m);
      err := None;
  }

  /** Level: the cached level if there is one, else a fresh resolution that is
      then cached. With a consistent cache it always equals a fresh resolution. */
  function Level(st: LoggerLevels, name: string): (r: (Level, LoggerLevels))
    ensures CacheConsistent(st) ==> r.0 == CalculateLevel(st.specs, st.defaultLevel, name)
    ensures Valid(st) ==> Valid(r.1)
    ensures r.1.specs == st.specs && r.1.defaultLevel == st.defaultLevel && r.1.minLevel == st.minLevel
    ensures name in r.1.levelCache && st.levelCache.Keys <= r.1.levelCache.Keys
  {
    if name in st.levelCache then (st.levelCache[name], st)
    else
      var l := CalculateLevel(st.specs, st.defaultLevel, name);
      (l, st.(levelCache := st.levelCache[name := l]))
  }

  /** DefaultLevel, which never lies below the global minimum. */
  function DefaultLevel(st: LoggerLevels): (r: Level)
    ensures Valid(st) ==> st.minLevel <= r
  {
    st.defaultLevel
  }

  /** Enabled: the cheap global gate against minLevel. */
  function Enabled(st: LoggerLevels, lvl: Level): (r: bool)
    ensures Valid(st) ==> (r <==> Levels.Enabled(st.defaultLevel, lvl) || exists k :: k in st.specs && Levels.Enabled(st.specs[k], lvl))
    ensures Valid(st) && r == false ==> forall n :: !Levels.Enabled(CalculateLevel(st.specs, st.defaultLevel, n), lvl)
  {
    Levels.Enabled(st.minLevel, lvl)
  }

  /** No name ever resolves below minLevel. */
  lemma MinLevelBelowResolved(st: LoggerLevels, name: string)
    requires IsMinLevel(st.minLevel, st.defaultLevel, st.specs)
    ensures st.minLevel <= CalculateLevel(st.specs, st.defaultLevel, name)
  {
  }

  /** The per-record check of core.go: the global gate, and only when it passes
      the per-logger level (which may populate the cache). The global gate
      never changes the verdict of the per-logger check. */
  function CheckEntry(st: LoggerLevels, name: string, lvl: Level): (r: (bool, LoggerLevels))
    ensures Valid(st) ==> Valid(r.1)
    ensures Valid(st) ==> (r.0 <==> Levels.Enabled(CalculateLevel(st.specs, st.defaultLevel, name), lvl))
  {
    if !Enabled(st, lvl) then (false, st)
    else
      var (l, st') := Level(st, name);
      (Levels.Enabled(l, lvl), st')
  }

  /** Anything a caller can do to the resolver. */
  datatype Op = Activate(spec: string) | Lookup(name: string) | Check(name: string, lvl: Level)

  /** Any sequence of operations keeps the cache consistent with the active
      spec and minLevel the true minimum. */
  method Replay(st: LoggerLevels, ops: seq<Op>) returns (st': LoggerLevels)
    requires Valid(st)
    ensures Valid(st')
  {
    st' := st;
    for i := 0 to |ops|
      invariant Valid(st')
    {
      match ops[i]
      case Activate(spec) =>
        var err;
        st', err := ActivateSpec(st', spec);
      case Lookup(name) =>
        st' := Level(st', name).1;
      case Check(name, lvl) =>
        st' := CheckEntry(st', name, lvl).1;
    }
  }
}
