/** How the cutting of a log-line pattern (common/clogging/cenc/formatter.go)
    composes: what is recognised at a position depends only on the text from
    that position on, so a directive, or a plain literal, written in front of
    a pattern adds exactly one piece in front of that pattern's pieces. The
    pieces of a concrete pattern then follow from its spelling. */
module PatternSplicing {
  import opened Wrappers
  import opened Strings
  import opened Formatters

  /** A step of the scan, `off` positions further right. */
  function ShiftStep(h: Option<Step>, off: nat): Option<Step>
  {
    match h
    case None => None
    case Some(st) => Some(Step(st.piece, st.next + off))
  }

  /** Moving twice is moving by the sum. */
  lemma ShiftTwice(m: Option<Match>, a: nat, b: nat)
    ensures ShiftMatch(ShiftMatch(m, a), b) == ShiftMatch(m, a + b)
  {
  }

  /** A text that ends in `t` from `off` on agrees with `t` from every position of `t` on. */
  lemma SuffixOfSuffix(s: string, off: nat, t: string, i: nat)
    requires |s| == off + |t| && s[off..] == t && i <= |t|
    ensures s[off + i..] == t[i..]
  {
    assert s[off + i..] == s[off..][i..];
  }

  /** The directive recognised at position `off + i` of a text that ends in
      `t` from `off` on is the one recognised at `i` of `t`: the text in
      front is never looked at. */
  lemma MatchAtShift(s: string, off: nat, t: string, i: nat)
    requires |s| == off + |t| && s[off..] == t && i <= |t|
    ensures MatchAt(s, off + i) == ShiftMatch(MatchAt(t, i), off)
  {
    SuffixOfSuffix(s, off, t, i);
    ShiftTwice(MatchFront(t[i..]), i, off);
  }

  /** What opens a text is what is recognised at its position 0. */
  lemma MatchAtStart(s: string, m: Match)
    requires MatchFront(s) == Some(m)
    ensures MatchAt(s, 0) == Some(m)
  {
    assert s[0..] == s;
  }

  /** A directive is recognised only where a '%' is written. */
  lemma MatchOpens(s: string, j: nat)
    requires j <= |s|
    ensures MatchAt(s, j).Some? ==> j < |s| && s[j] == '%'
  {
    if MatchAt(s, j).Some? {
      var m := MatchAt(s, j).value;
      var d := DirectiveText(m.verb, m.arg);
      assert s[j..j + |d|][0] == d[0];
    }
  }

  /** The marks of `s` from `off` on are those of `t`, moved `off` positions. */
  predicate MarksShifted(ms: seq<Option<Match>>, mt: seq<Option<Match>>, off: nat)
  {
    |ms| == |mt| + off && forall k :: 0 <= k < |mt| ==> ms[off + k] == ShiftMatch(mt[k], off)
  }

  lemma MarksOfSuffix(s: string, off: nat, t: string)
    requires |s| == off + |t| && s[off..] == t
    ensures MarksShifted(Marks(s), Marks(t), off)
  {
    forall k | 0 <= k < |Marks(t)|
      ensures Marks(s)[off + k] == ShiftMatch(Marks(t)[k], off)
    {
      MatchAtShift(s, off, t, k);
    }
  }

  lemma HeadShift(s: string, ms: seq<Option<Match>>, t: string, mt: seq<Option<Match>>, off: nat, j: nat)
    requires |s| == off + |t| && s[off..] == t && |mt| == |t| + 1 && MarksShifted(ms, mt, off)
    requires j <= |t|
    ensures Head(s, ms, off + j) == ShiftStep(Head(t, mt, j), off)
  {
    assert ms[off + j] == ShiftMatch(mt[j], off);
    if j < |t| && mt[j].None? {
      var n := NextMark(mt, j);
      forall k | off + j <= k < off + n
        ensures ms[k].None?
      {
        assert ms[off + (k - off)] == ShiftMatch(mt[k - off], off);
      }
      assert ms[off + n] == ShiftMatch(mt[n], off);
      NextMarkIs(ms, off + j, off + n);
      var a, b := s[off + j..off + n], t[j..n];
      forall k | 0 <= k < |a|
        ensures a[k] == b[k]
      {
        assert s[off + j + k] == s[off..][j + k];
      }
      assert a == b;
      assert Head(t, mt, j) == Some(Step(Literal(b), n));
      assert Head(s, ms, off + j) == Some(Step(Literal(a), off + n));
    }
  }

  /** A cutting of `t` from `j` is a cutting of `s` from `off + j`. */
  lemma {:induction false} CutShift(s: string, ms: seq<Option<Match>>, t: string, mt: seq<Option<Match>>, off: nat, ps: seq<Piece>, j: nat)
    requires |s| == off + |t| && s[off..] == t && |mt| == |t| + 1 && MarksShifted(ms, mt, off)
    requires j <= |t| && Cut(Heads(t, mt), ps, j)
    ensures Cut(Heads(s, ms), ps, off + j)
    decreases |ps|
  {
    if |ps| > 0 {
      var ht := Heads(t, mt);
      var n := CutStep(ht, ps, j);
      assert ht[j] == Head(t, mt, j);
      HeadShift(s, ms, t, mt, off, j);
      assert Heads(s, ms)[off + j] == Head(s, ms, off + j);
      CutShift(s, ms, t, mt, off, ps[1..], n);
    }
  }

  /** The pieces of `t` are a cutting, from `off` on, of a text that ends
      in `t` from `off` on. */
  lemma CutOfSuffix(s: string, off: nat, t: string)
    requires |s| == off + |t| && s[off..] == t
    ensures Cut(Heads(s, Marks(s)), Tokenize(t), off)
  {
    MarksOfSuffix(s, off, t);
    CutShift(s, Marks(s), t, Marks(t), off, Tokenize(t), 0);
  }

  /** A well-formed directive in front of a pattern is one more piece in
      front of the pattern's pieces. */
  lemma DirectiveInFront(verb: string, arg: Option<string>, t: string)
    requires IsDirective(verb, arg)
    ensures Tokenize(DirectiveText(verb, arg) + t) == [Directive(verb, arg)] + Tokenize(t)
  {
    var d := DirectiveText(verb, arg);
    var s := d + t;
    assert s[|d|..] == t;
    OpensWithDirective(verb, arg, t);
    assert Heads(s, Marks(s))[0] == Head(s, Marks(s), 0);
    CutOfSuffix(s, |d|, t);
    var ps := [Directive(verb, arg)] + Tokenize(t);
    assert ps[1..] == Tokenize(t);
    TokenizeIsLexed(s, ps);
  }

  /** Text without '%' in front of a pattern that is empty or opens with a
      directive is one literal piece in front of the pattern's pieces. */
  lemma LiteralInFront(l: string, t: string)
    requires l != "" && '%' !in l
    requires t == "" || MatchAt(t, 0).Some?
    ensures Tokenize(l + t) == [Literal(l)] + Tokenize(t)
  {
    var s := l + t;
    var ms := Marks(s);
    forall j | 0 <= j < |l|
      ensures ms[j].None?
    {
      MatchOpens(s, j);
      assert s[j] == l[j];
    }
    assert s[0..|l|] == l && s[|l|..] == t;
    MatchAtShift(s, |l|, t, 0);
    NextMarkIs(ms, 0, |l|);
    assert Heads(s, ms)[0] == Head(s, ms, 0);
    CutOfSuffix(s, |l|, t);
    var ps := [Literal(l)] + Tokenize(t);
    assert ps[1..] == Tokenize(t);
    TokenizeIsLexed(s, ps);
  }

  /** A well-formed directive spelled at the start of a pattern is
      recognised there, and recognised whole. */
  lemma OpensWithDirective(verb: string, arg: Option<string>, t: string)
    requires IsDirective(verb, arg)
    ensures MatchAt(DirectiveText(verb, arg) + t, 0) == Some(Match(verb, arg, |DirectiveText(verb, arg)|))
  {
    var d := DirectiveText(verb, arg);
    assert (d + t)[0..|d|] == d;
    MatchFrontComplete(d + t, verb, arg);
    MatchAtStart(d + t, Match(verb, arg, |d|));
  }

  /** Text without '%' is one literal piece, or none when it is empty. */
  lemma PlainTokens(l: string)
    requires '%' !in l
    ensures Tokenize(l) == if l == "" then [] else [Literal(l)]
  {
    forall j | 0 <= j < |l|
      ensures MatchAt(l, j).None?
    {
      MatchOpens(l, j);
    }
    TokenizeNoDirective(l);
  }

  /** Pieces that can be written out and read back unchanged: directives
      are well formed, literals are not empty and hold no '%', and a
      literal is followed by a directive or by nothing. */
  predicate Spellable(ps: seq<Piece>)
  {
    forall k :: 0 <= k < |ps| ==> SpellableAt(ps, k)
  }

  predicate SpellableAt(ps: seq<Piece>, k: nat)
    requires k < |ps|
  {
    match ps[k]
    case Directive(v, a) => IsDirective(v, a)
    case Literal(l) => l != "" && '%' !in l && (k + 1 < |ps| ==> ps[k + 1].Directive?)
  }

  /** Writing spellable pieces out and cutting the text again gives the
      same pieces back. */
  lemma {:induction false} TokenizeConcat(ps: seq<Piece>)
    requires Spellable(ps)
    ensures Tokenize(Concat(ps)) == ps
    decreases |ps|
  {
    if |ps| == 0 {
      PlainTokens("");
    } else {
      var rest := ps[1..];
      forall k | 0 <= k < |rest|
        ensures SpellableAt(rest, k)
      {
        assert SpellableAt(ps, k + 1);
      }
      TokenizeConcat(rest);
      assert SpellableAt(ps, 0);
      match ps[0]
      case Directive(v, a) =>
        DirectiveInFront(v, a, Concat(rest));
      case Literal(l) =>
        if |rest| > 0 {
          assert SpellableAt(rest, 0);
          OpensWithDirective(rest[0].verb, rest[0].arg, Concat(rest[1..]));
        }
        LiteralInFront(l, Concat(rest));
      assert ps == [ps[0]] + rest;
    }
  }

  /** The formatters of a written-out spellable list are those its pieces compile to. */
  lemma ParseFormatConcat(ps: seq<Piece>)
    requires Spellable(ps)
    ensures forall k :: 0 <= k < |ps| && ps[k].Directive? ==> ps[k].verb in Verbs
    ensures ParseFormat(Concat(ps)) == Compile(ps)
  {
    forall k | 0 <= k < |ps| && ps[k].Directive?
      ensures ps[k].verb in Verbs
    {
      assert SpellableAt(ps, k);
    }
    TokenizeConcat(ps);
  }
}
