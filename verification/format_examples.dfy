/** The patterns of the ParseFormat table in
    common/clogging/cenc/formatter_test.go, with their arguments and
    literal text left free, worked through the model. */
module FormatExamples {
  import opened Wrappers
  import opened Formatters
  import opened PatternSplicing

  /** Compile builds, piece by piece, what each piece becomes on its own. */
  lemma {:induction false} CompilePointwise(ps: seq<Piece>, fs: seq<Formatter>)
    requires forall k :: 0 <= k < |ps| && ps[k].Directive? ==> ps[k].verb in Verbs
    requires |ps| == |fs| && forall k :: 0 <= k < |ps| ==> PieceFormatter(ps[k]) == Success(fs[k])
    ensures Compile(ps) == Success(fs)
    decreases |ps|
  {
    if |ps| > 0 {
      var tail, rest := ps[1..], fs[1..];
      assert forall k :: 0 <= k < |tail| ==> tail[k] == ps[k + 1] && rest[k] == fs[k + 1];
      CompilePointwise(tail, rest);
      assert PieceFormatter(ps[0]) == Success(fs[0]);
      assert fs == [fs[0]] + rest;
    }
  }

  /** An argument the directive grammar accepts. */
  predicate PlainArg(a: string)
  {
    '}' !in a && '\n' !in a
  }

  /** Text the directive grammar leaves as one literal. */
  predicate PlainText(l: string)
  {
    l != "" && '%' !in l
  }

  /** The pieces of "%{message:4s},xxx%{module:6s}:haha", arguments and text left free. */
  function MessageModulePieces(a: string, l1: string, b: string, l3: string): seq<Piece>
  {
    [Directive("message", Some(a)), Literal(l1), Directive("module", Some(b)), Literal(l3)]
  }

  lemma MessageModulePattern(a: string, l1: string, b: string, l3: string)
    requires PlainArg(a) && a != "" && PlainArg(b) && b != ""
    requires PlainText(l1) && PlainText(l3)
    ensures ParseFormat(Concat(MessageModulePieces(a, l1, b, l3)))
            == Success([MessageFormatter("%" + a), StringFormatter(l1), ModuleFormatter("%" + b), StringFormatter(l3)])
  {
    var ps := MessageModulePieces(a, l1, b, l3);
    assert Spellable(ps) by {
      assert SpellableAt(ps, 0) && SpellableAt(ps, 1) && SpellableAt(ps, 2) && SpellableAt(ps, 3);
    }
    ParseFormatConcat(ps);
    MessageModuleCompiled(a, l1, b, l3);
  }

  lemma MessageModuleCompiled(a: string, l1: string, b: string, l3: string)
    requires a != "" && b != ""
    ensures Compile(MessageModulePieces(a, l1, b, l3))
            == Success([MessageFormatter("%" + a), StringFormatter(l1), ModuleFormatter("%" + b), StringFormatter(l3)])
  {
    var ps := MessageModulePieces(a, l1, b, l3);
    var fs := [MessageFormatter("%" + a), StringFormatter(l1), ModuleFormatter("%" + b), StringFormatter(l3)];
    assert PieceFormatter(ps[0]) == Success(fs[0]);
    assert PieceFormatter(ps[1]) == Success(fs[1]);
    assert PieceFormatter(ps[2]) == Success(fs[2]);
    assert PieceFormatter(ps[3]) == Success(fs[3]);
    CompilePointwise(ps, fs);
  }

  /** The pieces of "%{time:<layout>}%{color:bold}". */
  function TimeColorPieces(layout: string): seq<Piece>
  {
    [Directive("time", Some(layout)), Directive("color", Some("bold"))]
  }

  lemma TimeColorPattern(layout: string)
    requires PlainArg(layout) && layout != ""
    ensures ParseFormat(Concat(TimeColorPieces(layout))) == Success([TimeFormatter(layout), ColorFormatter(true, false)])
  {
    var ps := TimeColorPieces(layout);
    assert Spellable(ps) by {
      assert SpellableAt(ps, 0) && SpellableAt(ps, 1);
    }
    ParseFormatConcat(ps);
    TimeColorCompiled(layout);
  }

  lemma TimeColorCompiled(layout: string)
    requires layout != ""
    ensures Compile(TimeColorPieces(layout)) == Success([TimeFormatter(layout), ColorFormatter(true, false)])
  {
    var ps := TimeColorPieces(layout);
    var fs := [TimeFormatter(layout), ColorFormatter(true, false)];
    assert PieceFormatter(ps[0]) == Success(fs[0]);
    assert PieceFormatter(ps[1]) == Success(fs[1]);
    CompilePointwise(ps, fs);
  }

  /** "%{color:unknown}", with any option that is not a colour option. */
  lemma UnknownColorPattern(option: string)
    requires PlainArg(option) && option !in ColorOptions
    ensures ParseFormat(Concat([Directive("color", Some(option))])) == Failure("invalid color option: " + option)
  {
    var ps := [Directive("color", Some(option))];
    assert Spellable(ps) by {
      assert SpellableAt(ps, 0);
    }
    ParseFormatConcat(ps);
    assert IsBadPiece(ps[0]);
  }

  /** The pieces of "%{level:s}%{id:.4f}%{shortfunc:v}", arguments left free. */
  function LevelIdShortFuncPieces(a: string, b: string, c: string): seq<Piece>
  {
    [Directive("level", Some(a)), Directive("id", Some(b)), Directive("shortfunc", Some(c))]
  }

  lemma LevelIdShortFuncPattern(a: string, b: string, c: string)
    requires PlainArg(a) && a != "" && PlainArg(b) && b != "" && PlainArg(c) && c != ""
    ensures ParseFormat(Concat(LevelIdShortFuncPieces(a, b, c)))
            == Success([LevelFormatter("%" + a), SequenceFormatter("%" + b), ShortFuncFormatter("%" + c)])
  {
    var ps := LevelIdShortFuncPieces(a, b, c);
    assert Spellable(ps) by {
      assert SpellableAt(ps, 0) && SpellableAt(ps, 1) && SpellableAt(ps, 2);
    }
    ParseFormatConcat(ps);
    LevelIdShortFuncCompiled(a, b, c);
  }

  lemma LevelIdShortFuncCompiled(a: string, b: string, c: string)
    requires a != "" && b != "" && c != ""
    ensures Compile(LevelIdShortFuncPieces(a, b, c))
            == Success([LevelFormatter("%" + a), SequenceFormatter("%" + b), ShortFuncFormatter("%" + c)])
  {
    var ps := LevelIdShortFuncPieces(a, b, c);
    var fs := [LevelFormatter("%" + a), SequenceFormatter("%" + b), ShortFuncFormatter("%" + c)];
    assert PieceFormatter(ps[0]) == Success(fs[0]);
    assert PieceFormatter(ps[1]) == Success(fs[1]);
    assert PieceFormatter(ps[2]) == Success(fs[2]);
    CompilePointwise(ps, fs);
  }

  /** The pieces of "%{color:bold}%{color:reset}%{color}". */
  const ColorPieces: seq<Piece> := [Directive("color", Some("bold")), Directive("color", Some("reset")), Directive("color", None)]

  lemma ColorsPattern()
    ensures ParseFormat(Concat(ColorPieces))
            == Success([ColorFormatter(true, false), ColorFormatter(false, true), ColorFormatter(false, false)])
  {
    var ps := ColorPieces;
    assert Spellable(ps) by {
      assert SpellableAt(ps, 0) && SpellableAt(ps, 1) && SpellableAt(ps, 2);
    }
    ParseFormatConcat(ps);
    ColorsCompiled();
  }

  lemma ColorsCompiled()
    ensures Compile(ColorPieces)
            == Success([ColorFormatter(true, false), ColorFormatter(false, true), ColorFormatter(false, false)])
  {
    var ps := ColorPieces;
    var fs := [ColorFormatter(true, false), ColorFormatter(false, true), ColorFormatter(false, false)];
    assert PieceFormatter(ps[0]) == Success(fs[0]);
    assert PieceFormatter(ps[1]) == Success(fs[1]);
    assert PieceFormatter(ps[2]) == Success(fs[2]);
    CompilePointwise(ps, fs);
  }
}
