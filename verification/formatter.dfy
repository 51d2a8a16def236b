/** Log-line patterns (common/clogging/cenc/formatter.go): a pattern such as
    "%{color}[%{module}] %{level}%{color:reset} %{message}" is cut into
    literal text and `%{verb[:arg]}` directives, and each piece becomes a
    formatter that writes one part of a log line. */
module Formatters {
  import opened Wrappers
  import opened Strings
  import opened Levels
  import opened Colors

  // ---------------------------------------------------------------------
  // The directive grammar: %{(color|id|level|message|module|shortfunc|time)(?::(.*?))?}
  // ---------------------------------------------------------------------

  const Verbs: seq<string> := ["color", "id", "level", "message", "module", "shortfunc", "time"]

  /** `v` occurs in `s` starting at position `i`. */
  predicate StartsAt(s: string, i: nat, v: string)
  {
    i + |v| <= |s| && s[i..i + |v|] == v
  }

  /** A directive's verb and optional argument are well formed: the verb is
      one of the seven names and the argument holds neither '}' (the lazy
      `.*?` stops at the first one) nor a newline (`.` does not match it). */
  predicate IsDirective(verb: string, arg: Option<string>)
  {
    verb in Verbs && (arg.Some? ==> '}' !in arg.value && '\n' !in arg.value)
  }

  /** What follows the verb in a directive: "}" alone, or ':' and the
      argument and then "}". */
  function ArgText(arg: Option<string>): string
  {
    match arg
    case None => "}"
    case Some(a) => ":" + a + "}"
  }

  /** The text of a directive as it appears in a pattern. */
  function DirectiveText(verb: string, arg: Option<string>): string
  {
    "%{" + verb + ArgText(arg)
  }

  lemma StartsAtConcat(s: string, i: nat, x: string, y: string)
    ensures StartsAt(s, i, x + y) <==> StartsAt(s, i, x) && StartsAt(s, i + |x|, y)
  {
    if StartsAt(s, i, x) && StartsAt(s, i + |x|, y) {
      assert s[i..i + |x| + |y|] == s[i..i + |x|] + s[i + |x|..i + |x| + |y|];
    }
    if StartsAt(s, i, x + y) {
      assert s[i..i + |x|] == (x + y)[..|x|];
      assert s[i + |x|..i + |x| + |y|] == (x + y)[|x|..];
    }
  }

  lemma StartsAtChar(s: string, i: nat, c: char)
    ensures StartsAt(s, i, [c]) <==> i < |s| && s[i] == c
  {
    if i < |s| {
      assert s[i..i + 1] == [s[i]];
    }
  }

  /** No verb is a prefix of another: the first two letters tell them apart. */
  lemma StartsAtHead(s: string, i: nat, v: string)
    requires v in Verbs && StartsAt(s, i, v)
    ensures i + 1 < |s| && s[i] == v[0] && s[i + 1] == v[1]
  {
    assert s[i..i + |v|][0] == v[0] && s[i..i + |v|][1] == v[1];
  }

  /** The first verb, from the `k`-th on, spelled at position `i`: the
      regular expression tries the alternatives in order. */
  function VerbFrom(s: string, i: nat, k: nat): (r: Option<string>)
    requires k <= |Verbs|
    ensures r.Some? ==> r.value in Verbs && StartsAt(s, i, r.value)
    decreases |Verbs| - k
  {
    if k == |Verbs| then None
    else if StartsAt(s, i, Verbs[k]) then Some(Verbs[k])
    else VerbFrom(s, i, k + 1)
  }

  /** The verb spelled at position `i`, if any. */
  function VerbAt(s: string, i: nat): (r: Option<string>)
    ensures r.Some? ==> r.value in Verbs && StartsAt(s, i, r.value)
  {
    VerbFrom(s, i, 0)
  }

  /** The first two letters of the verbs are pairwise distinct. */
  lemma VerbPrefixesDiffer(a: nat, b: nat)
    requires a < b < |Verbs|
    ensures Verbs[a][0] != Verbs[b][0] || Verbs[a][1] != Verbs[b][1]
  {
  }

  /** Every verb is recognised where it is spelled: no verb is a prefix of
      another, so the alternation never picks another verb first. */
  lemma {:induction false} VerbFromComplete(s: string, i: nat, k: nat, n: nat)
    requires k <= n < |Verbs| && StartsAt(s, i, Verbs[n])
    ensures VerbFrom(s, i, k) == Some(Verbs[n])
    decreases n - k
  {
    if k < n {
      assert !StartsAt(s, i, Verbs[k]) by {
        if StartsAt(s, i, Verbs[k]) {
          StartsAtHead(s, i, Verbs[k]);
          StartsAtHead(s, i, Verbs[n]);
          VerbPrefixesDiffer(k, n);
        }
      }
      VerbFromComplete(s, i, k + 1, n);
    }
  }

  lemma VerbAtComplete(s: string, i: nat, v: string)
    requires v in Verbs && StartsAt(s, i, v)
    ensures VerbAt(s, i) == Some(v)
  {
    var n :| 0 <= n < |Verbs| && Verbs[n] == v;
    VerbFromComplete(s, i, 0, n);
  }

  /** The part after the verb that starts at position `p`: the argument
      runs to the first '}' and may not hold a newline. */
  function ArgAt(s: string, p: nat): (r: Option<(Option<string>, nat)>)
    requires p <= |s|
    ensures r.Some? ==> StartsAt(s, p, ArgText(r.value.0)) && r.value.1 == p + |ArgText(r.value.0)|
    ensures r.Some? && r.value.0.Some? ==> '}' !in r.value.0.value && '\n' !in r.value.0.value
  {
    if p < |s| && s[p] == ':' then
      var rest := s[p + 1..];
      var q := IndexOf(rest, '}');
      if q >= 0 && '\n' !in rest[..q] then
        var a := rest[..q];
        ColonArgSpelled(s, p, q);
        Some((Some(a), p + 2 + q))
      else None
    else if p < |s| && s[p] == '}' then
      StartsAtChar(s, p, '}');
      Some((None, p + 1))
    else None
  }

  /** An argument closed by the '}' at `q` positions past the ':' at `p` is
      spelled there. */
  lemma ColonArgSpelled(s: string, p: nat, q: nat)
    requires p + 1 + q < |s| && s[p] == ':' && s[p + 1 + q] == '}'
    ensures StartsAt(s, p, ArgText(Some(s[p + 1..][..q])))
  {
    var a := s[p + 1..][..q];
    assert s[p + 1..p + 1 + q] == a;
    StartsAtChar(s, p, ':');
    StartsAtChar(s, p + 1 + q, '}');
    StartsAtConcat(s, p, ":", a);
    StartsAtConcat(s, p, ":" + a, "}");
  }

  lemma ArgAtComplete(s: string, p: nat, arg: Option<string>)
    requires p <= |s| && StartsAt(s, p, ArgText(arg))
    requires arg.Some? ==> '}' !in arg.value && '\n' !in arg.value
    ensures ArgAt(s, p) == Some((arg, p + |ArgText(arg)|))
  {
    match arg
    case None =>
      StartsAtChar(s, p, '}');
    case Some(a) =>
      StartsAtConcat(s, p, ":" + a, "}");
      StartsAtConcat(s, p, ":", a);
      StartsAtChar(s, p, ':');
      StartsAtChar(s, p + 1 + |a|, '}');
      var rest := s[p + 1..];
      assert forall j :: 0 <= j < |a| ==> rest[j] == a[j];
      IndexOfIsFirst(rest, '}', |a|);
      assert rest[..|a|] == a;
  }

  /** A directive recognised at some position, with the index just past it. */
  datatype Match = Match(verb: string, arg: Option<string>, end: nat)

  /** A recognised directive, `off` positions further right. */
  function ShiftMatch(m: Option<Match>, off: nat): Option<Match>
  {
    match m
    case None => None
    case Some(x) => Some(Match(x.verb, x.arg, x.end + off))
  }

  /** `v` occurs at position `i` of `s` exactly when it opens `s[i..]`. */
  lemma StartsAtFront(s: string, i: nat, v: string)
    requires i <= |s|
    ensures StartsAt(s, i, v) <==> StartsAt(s[i..], 0, v)
  {
    if i + |v| <= |s| {
      assert s[i..i + |v|] == s[i..][0..|v|];
    }
  }

  /** The directive that starts at position `i` of `s`, if one does: what
      is recognised there depends only on the text from `i` on. */
  function MatchAt(s: string, i: nat): Option<Match>
    requires i <= |s|
  {
    ShiftMatch(MatchFront(s[i..]), i)
  }

  /** A directive recognised at `i` is well formed and spelled there, and
      the match ends just past its text. */
  lemma MatchAtSpelled(s: string, i: nat)
    requires i <= |s|
    ensures var r := MatchAt(s, i);
            r.Some? ==> && IsDirective(r.value.verb, r.value.arg)
                        && r.value.end == i + |DirectiveText(r.value.verb, r.value.arg)|
                        && StartsAt(s, i, DirectiveText(r.value.verb, r.value.arg))
  {
    var m := MatchFront(s[i..]);
    MatchFrontSpelled(s[i..]);
    if m.Some? {
      StartsAtFront(s, i, DirectiveText(m.value.verb, m.value.arg));
    }
  }

  /** The directive that opens `r`, if one does: "%{", the first verb that
      is spelled next, and the argument part after it. */
  function MatchFront(r: string): Option<Match>
  {
    if !StartsAt(r, 0, "%{") then None
    else match VerbAt(r, 2)
      case None => None
      case Some(v) => MatchWithVerb(r, 0, v)
  }

  /** A directive that opens `r` is well formed and spelled there. */
  lemma MatchFrontSpelled(r: string)
    ensures var m := MatchFront(r);
            m.Some? ==> && IsDirective(m.value.verb, m.value.arg)
                        && m.value.end == |DirectiveText(m.value.verb, m.value.arg)|
                        && StartsAt(r, 0, DirectiveText(m.value.verb, m.value.arg))
  {
    if StartsAt(r, 0, "%{") && VerbAt(r, 2).Some? {
      MatchWithVerbSpelled(r, 0, VerbAt(r, 2).value);
    }
  }

  /** The directive at `i` once "%{" and the verb `v` have been read. */
  function MatchWithVerb(s: string, i: nat, v: string): Option<Match>
    requires StartsAt(s, i, "%{") && v in Verbs && StartsAt(s, i + 2, v)
  {
    match ArgAt(s, i + 2 + |v|)
    case None => None
    case Some(t) => Some(Match(v, t.0, t.1))
  }

  /** Once "%{" and a verb are read, a recognised directive is well formed
      and spelled there, and `end` is the index just past it. */
  lemma MatchWithVerbSpelled(s: string, i: nat, v: string)
    requires StartsAt(s, i, "%{") && v in Verbs && StartsAt(s, i + 2, v)
    ensures var r := MatchWithVerb(s, i, v);
            r.Some? ==> && IsDirective(r.value.verb, r.value.arg)
                        && r.value.end == i + |DirectiveText(r.value.verb, r.value.arg)|
                        && StartsAt(s, i, DirectiveText(r.value.verb, r.value.arg))
  {
    match ArgAt(s, i + 2 + |v|)
    case None =>
    case Some(t) =>
      MatchWithVerbOf(s, i, v, t);
      DirectiveSpelled(s, i, v, t.0);
  }

  /** "%{", a verb and an argument part spelled one after the other spell the directive. */
  lemma DirectiveSpelled(s: string, i: nat, v: string, arg: Option<string>)
    requires StartsAt(s, i, "%{") && StartsAt(s, i + 2, v) && StartsAt(s, i + 2 + |v|, ArgText(arg))
    ensures StartsAt(s, i, DirectiveText(v, arg))
  {
    StartsAtConcat(s, i, "%{", v);
    StartsAtConcat(s, i, "%{" + v, ArgText(arg));
  }

  /** Conversely, every well-formed directive text is recognised when it
      opens a text, and recognised whole. */
  lemma MatchFrontComplete(r: string, verb: string, arg: Option<string>)
    requires IsDirective(verb, arg)
    requires StartsAt(r, 0, DirectiveText(verb, arg))
    ensures MatchFront(r) == Some(Match(verb, arg, |DirectiveText(verb, arg)|))
  {
    StartsAtConcat(r, 0, "%{" + verb, ArgText(arg));
    StartsAtConcat(r, 0, "%{", verb);
    assert StartsAt(r, 0, "%{") && StartsAt(r, 2, verb);
    VerbAtComplete(r, 2, verb);
    MatchWithVerbComplete(r, 0, verb, arg);
  }

  lemma MatchWithVerbComplete(s: string, i: nat, verb: string, arg: Option<string>)
    requires IsDirective(verb, arg)
    requires StartsAt(s, i, "%{") && StartsAt(s, i + 2, verb)
    requires StartsAt(s, i + 2 + |verb|, ArgText(arg))
    ensures MatchWithVerb(s, i, verb) == Some(Match(verb, arg, i + |DirectiveText(verb, arg)|))
  {
    var p := i + 2 + |verb|;
    ArgAtComplete(s, p, arg);
    MatchWithVerbOf(s, i, verb, (arg, p + |ArgText(arg)|));
    assert |DirectiveText(verb, arg)| == 2 + |verb| + |ArgText(arg)|;
  }

  lemma MatchWithVerbOf(s: string, i: nat, v: string, t: (Option<string>, nat))
    requires StartsAt(s, i, "%{") && v in Verbs && StartsAt(s, i + 2, v)
    requires ArgAt(s, i + 2 + |v|) == Some(t)
    ensures MatchWithVerb(s, i, v) == Some(Match(v, t.0, t.1))
  {
  }

  // ---------------------------------------------------------------------
  // Cutting a pattern into pieces
  // ---------------------------------------------------------------------

  /** One piece of a pattern: literal text, or a directive. */
  datatype Piece = Literal(text: string) | Directive(verb: string, arg: Option<string>)

  function Raw(p: Piece): string
  {
    match p
    case Literal(t) => t
    case Directive(v, a) => DirectiveText(v, a)
  }

  /** The pieces written back out, one after another. */
  function Concat(ps: seq<Piece>): string
  {
    if |ps| == 0 then "" else Raw(ps[0]) + Concat(ps[1..])
  }

  /** The directive recorded at position `j`, if any, is well formed and
      spelled there, and `end` is the index just past it. */
  predicate MarkSpelled(s: string, marks: seq<Option<Match>>, j: nat)
    requires j < |marks|
  {
    marks[j].Some? ==>
      IsDirective(marks[j].value.verb, marks[j].value.arg)
      && marks[j].value.end == j + |DirectiveText(marks[j].value.verb, marks[j].value.arg)|
      && StartsAt(s, j, DirectiveText(marks[j].value.verb, marks[j].value.arg))
  }

  /** `marks[j]` is a directive recognised at position `j` of `s`, if any. */
  predicate WellMarked(s: string, marks: seq<Option<Match>>)
  {
    |marks| == |s| + 1 && forall j :: 0 <= j <= |s| ==> MarkSpelled(s, marks, j)
  }

  /** The directives recognised at every position of `s`. */
  function Marks(s: string): (r: seq<Option<Match>>)
    ensures WellMarked(s, r)
    ensures forall j :: 0 <= j <= |s| ==> r[j] == MatchAt(s, j)
  {
    var r := seq(|s| + 1, j requires 0 <= j <= |s| => MatchAt(s, j));
    MarksSpelled(s, r);
    r
  }

  /** Positions that hold what is recognised there are well marked. */
  lemma MarksSpelled(s: string, r: seq<Option<Match>>)
    requires |r| == |s| + 1 && forall j :: 0 <= j <= |s| ==> r[j] == MatchAt(s, j)
    ensures WellMarked(s, r)
  {
    forall j | 0 <= j <= |s|
      ensures MarkSpelled(s, r, j)
    {
      MatchAtSpelled(s, j);
    }
  }

  /** The first position from `i` on where a directive is recognised, or
      the last position when there is none. */
  function NextMark(marks: seq<Option<Match>>, i: nat): (r: nat)
    requires i < |marks|
    ensures i <= r < |marks|
    ensures r == |marks| - 1 || marks[r].Some?
    ensures forall j :: i <= j < r ==> marks[j].None?
    decreases |marks| - i
  {
    if i == |marks| - 1 || marks[i].Some? then i else NextMark(marks, i + 1)
  }

  /** The next mark from `i` is `n` when none lies between them and `n` is
      a mark or the last position. */
  lemma {:induction false} NextMarkIs(marks: seq<Option<Match>>, i: nat, n: nat)
    requires i <= n < |marks|
    requires forall j :: i <= j < n ==> marks[j].None?
    requires n == |marks| - 1 || marks[n].Some?
    ensures NextMark(marks, i) == n
    decreases n - i
  {
    if i < n {
      NextMarkIs(marks, i + 1, n);
    }
  }

  /** A piece the scan takes, with the position just past it. */
  datatype Step = Step(piece: Piece, next: nat)

  /** The piece the scan takes at position `i`: the directive recognised
      there, or else the literal text up to the next recognised directive
      or to the end; nothing once the text is used up. */
  function Head(s: string, marks: seq<Option<Match>>, i: nat): (r: Option<Step>)
    requires |marks| == |s| + 1 && i <= |s|
    ensures r.None? <==> i == |s|
  {
    if i == |s| then None
    else match marks[i]
      case Some(m) => Some(Step(Directive(m.verb, m.arg), m.end))
      case None =>
        var n := NextMark(marks, i);
        Some(Step(Literal(s[i..n]), n))
  }

  /** Declaratively, `x` leads at `i`: it is the directive recognised at
      `i`, or a non-empty literal spelled at `i` inside which no directive
      is recognised, and which runs up to a recognised directive or to the
      end. */
  predicate Leads(s: string, marks: seq<Option<Match>>, i: nat, x: Piece)
    requires |marks| == |s| + 1 && i <= |s|
  {
    match x
    case Literal(t) =>
      0 < |t| && StartsAt(s, i, t)
      && (forall j :: i <= j < i + |t| ==> marks[j].None?)
      && (i + |t| == |s| || marks[i + |t|].Some?)
    case Directive(v, a) =>
      i + |DirectiveText(v, a)| <= |s| && marks[i] == Some(Match(v, a, i + |DirectiveText(v, a)|))
  }

  /** The head at `i` is exactly the piece that leads there. */
  lemma HeadLeads(s: string, marks: seq<Option<Match>>, i: nat, x: Piece)
    requires WellMarked(s, marks) && i <= |s|
    ensures Head(s, marks, i).Some? && Head(s, marks, i).value.piece == x <==> Leads(s, marks, i, x)
  {
    assert MarkSpelled(s, marks, i);
    if i < |s| && marks[i].None? {
      var n := NextMark(marks, i);
      assert s[i..i + |s[i..n]|] == s[i..n];
      if x.Literal? && Leads(s, marks, i, x) {
        var e := i + |x.text|;
        NextMarkIs(marks, i, e);
        assert s[i..e] == x.text;
      }
    }
  }

  /** The head at every position of `s`. */
  function Heads(s: string, marks: seq<Option<Match>>): (r: seq<Option<Step>>)
    requires |marks| == |s| + 1
    ensures |r| == |s| + 1 && forall j {:trigger Head(s, marks, j)} :: 0 <= j <= |s| ==> r[j] == Head(s, marks, j)
  {
    seq(|s| + 1, j requires 0 <= j <= |s| => Head(s, marks, j))
  }

  /** The head at `i` is spelled where it starts and is not empty; there
      is none only at the end. */
  predicate HeadSpelled(s: string, heads: seq<Option<Step>>, i: nat)
    requires |heads| == |s| + 1 && i <= |s|
  {
    match heads[i]
    case None => i == |s|
    case Some(st) => i < st.next <= |s| && st.next == i + |Raw(st.piece)| && s[i..st.next] == Raw(st.piece)
  }

  /** A literal head runs up to a directive or to the end, and a directive
      head is well formed. */
  predicate HeadShaped(s: string, heads: seq<Option<Step>>, i: nat)
    requires |heads| == |s| + 1 && i <= |s|
  {
    match heads[i]
    case None => true
    case Some(st) =>
      (st.piece.Literal? && st.next < |s| ==> heads[st.next].Some? && heads[st.next].value.piece.Directive?)
      && (st.piece.Directive? ==> IsDirective(st.piece.verb, st.piece.arg))
  }

  /** Every head of `s` is spelled where it starts. */
  predicate AllSpelled(s: string, heads: seq<Option<Step>>)
  {
    |heads| == |s| + 1 && forall i :: 0 <= i <= |s| ==> HeadSpelled(s, heads, i)
  }

  /** What the heads of `s` look like at every position. */
  predicate WellHeaded(s: string, heads: seq<Option<Step>>)
  {
    AllSpelled(s, heads) && forall i :: 0 <= i <= |s| ==> HeadShaped(s, heads, i)
  }

  lemma HeadFit(s: string, marks: seq<Option<Match>>, i: nat)
    requires WellMarked(s, marks) && i <= |s|
    ensures HeadSpelled(s, Heads(s, marks), i) && HeadShaped(s, Heads(s, marks), i)
  {
    assert MarkSpelled(s, marks, i);
    var heads := Heads(s, marks);
    assert heads[i] == Head(s, marks, i);
    if i < |s| && marks[i].None? {
      var n := NextMark(marks, i);
      if n < |s| {
        assert heads[n] == Head(s, marks, n);
      }
    }
  }

  /** The heads of a well-marked text fit everywhere. */
  lemma HeadsFit(s: string, marks: seq<Option<Match>>)
    requires WellMarked(s, marks)
    ensures WellHeaded(s, Heads(s, marks))
  {
    forall i | 0 <= i <= |s|
      ensures HeadSpelled(s, Heads(s, marks), i) && HeadShaped(s, Heads(s, marks), i)
    {
      HeadFit(s, marks, i);
    }
  }

  /** `ps` is the cutting from position `i`: every piece is the head where
      the previous one ended, and the last one ends at the end. */
  predicate Cut(heads: seq<Option<Step>>, ps: seq<Piece>, i: nat)
    requires i < |heads|
    decreases |ps|
  {
    if |ps| == 0 then i == |heads| - 1
    else
      && heads[i].Some? && heads[i].value.piece == ps[0] && heads[i].value.next < |heads|
      && Cut(heads, ps[1..], heads[i].value.next)
  }

  /** `ps` is the leftmost, non-overlapping cutting of the whole of `s`. */
  predicate Lexed(s: string, ps: seq<Piece>)
  {
    Cut(Heads(s, Marks(s)), ps, 0)
  }

  /** The scan of ParseFormat: `start` is where the pending literal began,
      and no directive is recognised in `s[start..i]`. */
  function Lex(s: string, marks: seq<Option<Match>>, start: nat, i: nat): (r: seq<Piece>)
    requires WellMarked(s, marks) && start <= i <= |s|
    requires forall j :: start <= j < i ==> marks[j].None?
    ensures Cut(Heads(s, marks), r, start)
    decreases |s| - i
  {
    if i == |s| then
      LexPending(s, marks, start, i, []);
      Pending(s, start, i, [])
    else match marks[i]
      case None => Lex(s, marks, start, i + 1)
      case Some(m) =>
        assert MarkSpelled(s, marks, i);
        var after := Lex(s, marks, m.end, m.end);
        LexDirective(s, marks, start, i, after);
        Pending(s, start, i, [Directive(m.verb, m.arg)] + after)
  }

  /** The pending literal `s[start..i]`, if not empty, in front of `rest`. */
  function Pending(s: string, start: nat, i: nat, rest: seq<Piece>): seq<Piece>
    requires start <= i <= |s|
  {
    if start < i then [Literal(s[start..i])] + rest else rest
  }

  /** The pending literal is the head where it starts, so it can be put in
      front of the cutting that goes on at `i`. */
  lemma LexPending(s: string, marks: seq<Option<Match>>, start: nat, i: nat, rest: seq<Piece>)
    requires WellMarked(s, marks) && start <= i <= |s|
    requires forall j :: start <= j < i ==> marks[j].None?
    requires i == |s| || marks[i].Some?
    requires Cut(Heads(s, marks), rest, i)
    ensures Cut(Heads(s, marks), Pending(s, start, i, rest), start)
  {
    if start < i {
      NextMarkIs(marks, start, i);
      var x := Literal(s[start..i]);
      assert Heads(s, marks)[start] == Head(s, marks, start) == Some(Step(x, i));
      assert ([x] + rest)[1..] == rest;
    }
  }

  /** The directive recognised at `i` is the head there, in front of the
      cutting that goes on just past it. */
  lemma LexDirective(s: string, marks: seq<Option<Match>>, start: nat, i: nat, after: seq<Piece>)
    requires WellMarked(s, marks) && start <= i < |s| && marks[i].Some?
    requires forall j :: start <= j < i ==> marks[j].None?
    requires marks[i].value.end <= |s| && Cut(Heads(s, marks), after, marks[i].value.end)
    ensures Cut(Heads(s, marks), Pending(s, start, i, [Directive(marks[i].value.verb, marks[i].value.arg)] + after), start)
  {
    assert MarkSpelled(s, marks, i);
    var d := Directive(marks[i].value.verb, marks[i].value.arg);
    assert Heads(s, marks)[i] == Head(s, marks, i) == Some(Step(d, marks[i].value.end));
    assert ([d] + after)[1..] == after;
    LexPending(s, marks, start, i, [d] + after);
  }

  /** The pieces of a pattern, in order. */
  function Tokenize(s: string): (r: seq<Piece>)
    ensures Lexed(s, r)
  {
    Lex(s, Marks(s), 0, 0)
  }

  /** One step of a cutting: the first piece is the head at `i`, and the
      cutting goes on at `n`, just past it. */
  lemma CutStep(heads: seq<Option<Step>>, ps: seq<Piece>, i: nat) returns (n: nat)
    requires i < |heads| && Cut(heads, ps, i) && |ps| > 0
    ensures heads[i] == Some(Step(ps[0], n)) && n < |heads| && Cut(heads, ps[1..], n)
  {
    n := heads[i].value.next;
  }

  /** Two cuttings from the same position are equal. */
  lemma {:induction false} CutUnique(heads: seq<Option<Step>>, p: seq<Piece>, q: seq<Piece>, i: nat)
    requires i < |heads| && heads[|heads| - 1].None? && Cut(heads, p, i) && Cut(heads, q, i)
    ensures p == q
    decreases |p|
  {
    if |p| > 0 {
      var n := CutStep(heads, p, i);
      var n' := CutStep(heads, q, i);
      CutUnique(heads, p[1..], q[1..], n);
      assert p == [p[0]] + p[1..];
      assert q == [q[0]] + q[1..];
    }
  }

  /** Tokenize is exactly the leftmost cutting of the pattern: there is
      only one. */
  lemma TokenizeIsLexed(s: string, ps: seq<Piece>)
    ensures Tokenize(s) == ps <==> Lexed(s, ps)
  {
    if Lexed(s, ps) {
      var heads := Heads(s, Marks(s));
      assert heads[|s|] == Head(s, Marks(s), |s|);
      CutUnique(heads, Tokenize(s), ps, 0);
    }
  }

  /** A first piece spelled at `i`, followed by pieces that spell the rest. */
  lemma ConcatStep(s: string, ps: seq<Piece>, i: nat)
    requires |ps| > 0 && i + |Raw(ps[0])| <= |s| && s[i..i + |Raw(ps[0])|] == Raw(ps[0])
    requires Concat(ps[1..]) == s[i + |Raw(ps[0])|..]
    ensures Concat(ps) == s[i..]
  {
    var n := i + |Raw(ps[0])|;
    assert s[i..] == s[i..n] + s[n..];
  }

  /** Writing the pieces of a cutting back out gives the text they were cut from. */
  lemma {:induction false} CutConcat(s: string, heads: seq<Option<Step>>, ps: seq<Piece>, i: nat)
    requires AllSpelled(s, heads) && i <= |s| && Cut(heads, ps, i)
    ensures Concat(ps) == s[i..]
    decreases |ps|
  {
    if |ps| > 0 {
      var rest := ps[1..];
      var n := CutStep(heads, ps, i);
      assert HeadSpelled(s, heads, i);
      CutConcat(s, heads, rest, n);
      ConcatStep(s, ps, i);
    }
  }

  /** The `m`-th piece of a cutting from `i` is the head at some position
      `j`, and the next piece, if any, is the head just past it. */
  lemma {:induction false} CutAt(heads: seq<Option<Step>>, ps: seq<Piece>, i: nat, m: nat) returns (j: nat, n: nat)
    requires i < |heads| && Cut(heads, ps, i) && m < |ps|
    ensures j < |heads| && heads[j] == Some(Step(ps[m], n)) && n < |heads|
    ensures m + 1 < |ps| ==> heads[n].Some? && heads[n].value.piece == ps[m + 1]
    decreases m
  {
    var rest := ps[1..];
    var next := CutStep(heads, ps, i);
    if m == 0 {
      j, n := i, next;
      if 1 < |ps| {
        assert rest[0] == ps[1];
      }
    } else {
      j, n := CutAt(heads, rest, next, m - 1);
      assert rest[m - 1] == ps[m];
      if m + 1 < |ps| {
        assert rest[m] == ps[m + 1];
      }
    }
  }

  /** The pieces alternate: literals are never empty and never adjacent,
      and every directive is well formed. */
  lemma CutShape(s: string, heads: seq<Option<Step>>, ps: seq<Piece>, m: nat)
    requires WellHeaded(s, heads) && Cut(heads, ps, 0) && m < |ps|
    ensures ps[m].Literal? ==> |ps[m].text| > 0
    ensures ps[m].Literal? && m + 1 < |ps| ==> ps[m + 1].Directive?
    ensures ps[m].Directive? ==> IsDirective(ps[m].verb, ps[m].arg)
  {
    var j, n := CutAt(heads, ps, 0, m);
    assert HeadSpelled(s, heads, j) && HeadShaped(s, heads, j);
    if m + 1 < |ps| {
      assert HeadSpelled(s, heads, n);
    }
  }

  /** Partition: the pieces of a pattern spell the pattern, alternate
      between literal and directive text, and hold only well-formed
      directives. */
  lemma TokenizePartition(s: string)
    ensures Concat(Tokenize(s)) == s
    ensures forall k :: 0 <= k < |Tokenize(s)| && Tokenize(s)[k].Literal? ==> |Tokenize(s)[k].text| > 0
    ensures forall k :: 0 <= k < |Tokenize(s)| - 1 && Tokenize(s)[k].Literal? ==> Tokenize(s)[k + 1].Directive?
    ensures forall k :: 0 <= k < |Tokenize(s)| && Tokenize(s)[k].Directive? ==> IsDirective(Tokenize(s)[k].verb, Tokenize(s)[k].arg)
  {
    var heads := Heads(s, Marks(s));
    HeadsFit(s, Marks(s));
    var ps := Tokenize(s);
    CutConcat(s, heads, ps, 0);
    forall m | 0 <= m < |ps|
      ensures ps[m].Literal? ==> |ps[m].text| > 0
      ensures ps[m].Literal? && m + 1 < |ps| ==> ps[m + 1].Directive?
      ensures ps[m].Directive? ==> IsDirective(ps[m].verb, ps[m].arg)
    {
      CutShape(s, heads, ps, m);
    }
  }

  /** Text in which no directive starts is one literal (or nothing). */
  lemma TokenizeNoDirective(s: string)
    requires forall j :: 0 <= j < |s| ==> MatchAt(s, j).None?
    ensures Tokenize(s) == if s == "" then [] else [Literal(s)]
  {
    var marks := Marks(s);
    LexPending(s, marks, 0, |s|, []);
    assert s[0..|s|] == s;
    TokenizeIsLexed(s, Pending(s, 0, |s|, []));
  }

  // ---------------------------------------------------------------------
  // Formatters and their constructors
  // ---------------------------------------------------------------------

  /** One formatter per piece; the `formatVerb` fields hold a printf verb. */
  datatype Formatter =
    | StringFormatter(value: string)
    | ColorFormatter(bold: bool, reset: bool)
    | LevelFormatter(formatVerb: string)
    | MessageFormatter(formatVerb: string)
    | ShortFuncFormatter(formatVerb: string)
    | TimeFormatter(layout: string)
    | SequenceFormatter(formatVerb: string)
    | ModuleFormatter(formatVerb: string)

  /** The layout of RFC 3339 with milliseconds, in Go's reference-time notation. */
  const DefaultTimeLayout: string := "2006-01-02T15:04:05.999Z07:00"

  function StringOrDefault(str: string, dlt: string): string
  {
    if str != "" then str else dlt
  }

  const ColorOptions: seq<string> := ["", "bold", "reset"]

  /** The colour directive takes no option, "bold" or "reset". */
  function NewColorFormatter(format: string): (r: Result<Formatter, string>)
    ensures r.Success? <==> format in ColorOptions
    ensures r.Success? ==> r.value.ColorFormatter? && (r.value.bold <==> format == "bold")
                           && (r.value.reset <==> format == "reset")
    ensures r.Failure? ==> r.error == "invalid color option: " + format
  {
    match format
    case "bold" => Success(ColorFormatter(true, false))
    case "reset" => Success(ColorFormatter(false, true))
    case "" => Success(ColorFormatter(false, false))
    case _ => Failure("invalid color option: " + format)
  }

  /** The verb a formatter was built from. */
  function VerbOf(f: Formatter): string
  {
    match f
    case StringFormatter(_) => ""
    case ColorFormatter(_, _) => "color"
    case LevelFormatter(_) => "level"
    case MessageFormatter(_) => "message"
    case ShortFuncFormatter(_) => "shortfunc"
    case TimeFormatter(_) => "time"
    case SequenceFormatter(_) => "id"
    case ModuleFormatter(_) => "module"
  }

  /** NewFormatter: build the formatter for one directive. It fails exactly
      for an unknown verb or a bad colour option; otherwise the formatter
      is of the verb's kind, and a printf-style verb is "%" followed by the
      argument, or by "d" for `id` and "s" for the others when the argument
      is empty; an empty time layout means DefaultTimeLayout. */
  function NewFormatter(verb: string, format: string): (r: Result<Formatter, string>)
    ensures r.Failure? <==> verb !in Verbs || (verb == "color" && format !in ColorOptions)
    ensures verb !in Verbs ==> r == Failure("unknown verb: " + verb)
    ensures r.Success? ==> VerbOf(r.value) == verb
    ensures r.Success? && r.value.TimeFormatter? ==>
              r.value.layout == if format == "" then DefaultTimeLayout else format
    ensures r.Success? && r.value.SequenceFormatter? ==>
              r.value.formatVerb == "%" + if format == "" then "d" else format
    ensures r.Success? && (r.value.LevelFormatter? || r.value.MessageFormatter?
                           || r.value.ShortFuncFormatter? || r.value.ModuleFormatter?) ==>
              r.value.formatVerb == "%" + if format == "" then "s" else format
  {
    match verb
    case "color" => NewColorFormatter(format)
    case "level" => Success(LevelFormatter("%" + StringOrDefault(format, "s")))
    case "message" => Success(MessageFormatter("%" + StringOrDefault(format, "s")))
    case "shortfunc" => Success(ShortFuncFormatter("%" + StringOrDefault(format, "s")))
    case "time" => Success(TimeFormatter(StringOrDefault(format, DefaultTimeLayout)))
    case "id" => Success(SequenceFormatter("%" + StringOrDefault(format, "d")))
    case "module" => Success(ModuleFormatter("%" + StringOrDefault(format, "s")))
    case _ => Failure("unknown verb: " + verb)
  }

  /** A piece whose constructor fails: a colour directive with a bad option. */
  predicate IsBadPiece(p: Piece)
  {
    p.Directive? && p.verb == "color" && p.arg.GetOr("") !in ColorOptions
  }

  /** The formatter a piece becomes. */
  function PieceFormatter(p: Piece): Result<Formatter, string>
  {
    match p
    case Literal(t) => Success(StringFormatter(t))
    case Directive(v, a) => NewFormatter(v, a.GetOr(""))
  }

  /** Build one formatter per piece, stopping at the first failure. */
  function Compile(ps: seq<Piece>): (r: Result<seq<Formatter>, string>)
    requires forall k :: 0 <= k < |ps| && ps[k].Directive? ==> ps[k].verb in Verbs
    ensures r.Failure? <==> exists k :: 0 <= k < |ps| && IsBadPiece(ps[k])
    ensures r.Failure? ==> exists k :: 0 <= k < |ps| && IsBadPiece(ps[k])
                                   && (forall j :: 0 <= j < k ==> !IsBadPiece(ps[j]))
                                   && r.error == "invalid color option: " + ps[k].arg.GetOr("")
    ensures r.Success? ==> |r.value| == |ps|
    ensures r.Success? ==> forall k :: 0 <= k < |ps| ==> PieceFormatter(ps[k]) == Success(r.value[k])
  {
    if |ps| == 0 then Success([])
    else
      var head := PieceFormatter(ps[0]);
      assert forall k :: 1 <= k < |ps| ==> ps[1..][k - 1] == ps[k];
      if head.Failure? then Failure(head.error)
      else match Compile(ps[1..])
        case Failure(e) => Failure(e)
        case Success(rest) => Success([head.value] + rest)
  }

  /** ParseFormat: compile a pattern into its list of formatters. */
  function ParseFormat(spec: string): (r: Result<seq<Formatter>, string>)
  {
    TokenizePartition(spec);
    Compile(Tokenize(spec))
  }

  /** ParseFormat fails exactly when some colour directive has a bad option,
      with the message naming the first such option; it never returns a
      partial list. On success the formatters match the pieces one for one:
      literal text becomes a StringFormatter holding it verbatim. */
  lemma ParseFormatResult(spec: string)
    ensures var ps := Tokenize(spec);
            && (ParseFormat(spec).Failure? <==> exists k :: 0 <= k < |ps| && IsBadPiece(ps[k]))
            && (ParseFormat(spec).Failure? ==>
                  exists k :: 0 <= k < |ps| && IsBadPiece(ps[k])
                           && (forall j :: 0 <= j < k ==> !IsBadPiece(ps[j]))
                           && ParseFormat(spec).error == "invalid color option: " + ps[k].arg.GetOr(""))
            && (ParseFormat(spec).Success? ==>
                  |ParseFormat(spec).value| == |ps|
                  && forall k :: 0 <= k < |ps| && ps[k].Literal? ==>
                       ParseFormat(spec).value[k] == StringFormatter(ps[k].text))
  {
    TokenizePartition(spec);
  }

  // ---------------------------------------------------------------------
  // Rendering
  // ---------------------------------------------------------------------

  /** The part of a log record the formatters read. `time` stands for the
      record's instant; `caller` is the symbol name the runtime reports for
      the call site, None when it reports none. */
  datatype Entry = Entry(level: Level, time: int, loggerName: string, message: string, caller: Option<string>)

  /** Go's printf and time formatting, which the model does not interpret:
      `str` formats a string argument, `uint` an unsigned one, and `time`
      renders an instant in a layout. */
  datatype Printer = Printer(str: (string, string) -> string, uint: (string, nat) -> string, time: (int, string) -> string)

  /** printf of one string; "%s" prints the string unchanged. */
  function PrintString(p: Printer, verb: string, arg: string): string
  {
    if verb == "%s" then arg else p.str(verb, arg)
  }

  /** printf of one unsigned integer; "%d" prints it in decimal. */
  function PrintUint(p: Printer, verb: string, n: nat): string
  {
    if verb == "%d" then NatToString(n) else p.uint(verb, n)
  }

  /** 2^64: the sequence counter is a Go `uint64`. */
  const U64: nat := 0x1_0000_0000_0000_0000

  /** LevelColor: the foreground colour for a severity; levels outside
      Debug..Fatal get no colour. */
  function LevelColor(l: Level): (r: Color)
    ensures r == ColorNone <==> !(DebugLevel <= l <= FatalLevel)
    ensures r != ColorNone ==> ColorBlack <= r <= ColorWhite
    ensures DPanicLevel <= l <= FatalLevel ==> r == ColorMagenta
  {
    if l == DebugLevel then ColorCyan
    else if l == InfoLevel then ColorBlue
    else if l == WarnLevel then ColorYellow
    else if l == ErrorLevel then ColorRed
    else if l == DPanicLevel || l == PanicLevel || l == FatalLevel then ColorMagenta
    else ColorNone
  }

  lemma LevelColors()
    ensures LevelColor(DebugLevel) == 36 && LevelColor(InfoLevel) == 34
    ensures LevelColor(WarnLevel) == 33 && LevelColor(ErrorLevel) == 31
  {
  }

  /** The symbol after its last '.', the whole symbol when it has none. */
  function ShortFuncName(name: string): (r: string)
    ensures '.' !in r
    ensures exists k :: 0 <= k <= |name| && name[k..] == r && (k == 0 || name[k - 1] == '.')
  {
    var i := LastIndexOf(name, '.');
    assert name[i + 1..] == name[i + 1..];
    name[i + 1..]
  }

  /** Write one formatter's output for `e`; `counter` is the shared sequence
      counter, which only a SequenceFormatter moves, by one, wrapping at 2^64. */
  function Render(f: Formatter, p: Printer, e: Entry, counter: nat): (r: (string, nat))
    requires counter < U64
    ensures r.1 < U64
    ensures r.1 == if f.SequenceFormatter? then (counter + 1) % U64 else counter
    ensures f.StringFormatter? ==> r.0 == f.value
    ensures f.ColorFormatter? && f.bold ==>
              ParseSgr(r.0) == Some(Sgr(LevelColor(e.level), LevelColor(e.level) != ColorNone))
    ensures f.ColorFormatter? && !f.bold && f.reset ==> ParseSgr(r.0) == Some(Sgr(0, false))
    ensures f.ColorFormatter? && !f.bold && !f.reset ==> ParseSgr(r.0) == Some(Sgr(LevelColor(e.level), false))
    ensures f.LevelFormatter? && f.formatVerb == "%s" ==> r.0 == CapitalString(e.level)
    ensures f.ModuleFormatter? && f.formatVerb == "%s" ==> r.0 == e.loggerName
    ensures f.MessageFormatter? && f.formatVerb == "%s" ==>
              |r.0| <= |e.message| && e.message[..|r.0|] == r.0
              && (|r.0| > 0 ==> r.0[|r.0| - 1] != '\n')
              && (forall i :: |r.0| <= i < |e.message| ==> e.message[i] == '\n')
    ensures f.ShortFuncFormatter? && f.formatVerb == "%s" && e.caller.None? ==> r.0 == "(unknown)"
    ensures f.ShortFuncFormatter? && f.formatVerb == "%s" && e.caller.Some? ==>
              '.' !in r.0 && exists k :: 0 <= k <= |e.caller.value| && e.caller.value[k..] == r.0
                                       && (k == 0 || e.caller.value[k - 1] == '.')
    ensures f.SequenceFormatter? && f.formatVerb == "%d" ==> r.0 == NatToString(r.1)
  {
    match f
    case StringFormatter(v) => (v, counter)
    case ColorFormatter(bold, reset) =>
      var c := LevelColor(e.level);
      (if bold then Bold(c) else if reset then ResetColor() else Normal(c), counter)
    case LevelFormatter(verb) => (PrintString(p, verb, CapitalString(e.level)), counter)
    case MessageFormatter(verb) => (PrintString(p, verb, TrimRight(e.message, '\n')), counter)
    case ShortFuncFormatter(verb) =>
      (match e.caller
       case None => (PrintString(p, verb, "(unknown)"), counter)
       case Some(name) => (PrintString(p, verb, ShortFuncName(name)), counter))
    case TimeFormatter(layout) => (p.time(e.time, layout), counter)
    case SequenceFormatter(verb) =>
      var next := (counter + 1) % U64;
      (PrintUint(p, verb, next), next)
    case ModuleFormatter(verb) => (PrintString(p, verb, e.loggerName), counter)
  }

  /** How many sequence formatters a list holds. */
  function SequenceCount(fs: seq<Formatter>): nat
  {
    if |fs| == 0 then 0 else (if fs[0].SequenceFormatter? then 1 else 0) + SequenceCount(fs[1..])
  }

  /** Write every formatter's output in list order into one buffer. The
      counter ends up advanced once per sequence formatter, modulo 2^64. */
  function RenderAll(fs: seq<Formatter>, p: Printer, e: Entry, counter: nat): (r: (string, nat))
    requires counter < U64
    ensures r.1 < U64
    ensures r.1 == (counter + SequenceCount(fs)) % U64
  {
    if |fs| == 0 then ("", counter)
    else
      var (head, c) := Render(fs[0], p, e, counter);
      var (tail, c') := RenderAll(fs[1..], p, e, c);
      ModAddLeft(counter + (if fs[0].SequenceFormatter? then 1 else 0), SequenceCount(fs[1..]));
      (head + tail, c')
  }

  /** Rendering a list in two halves is rendering the first half and then
      the second from where the counter was left. */
  lemma {:induction false} RenderAllAppend(a: seq<Formatter>, b: seq<Formatter>, p: Printer, e: Entry, counter: nat)
    requires counter < U64
    ensures var (x, c) := RenderAll(a, p, e, counter);
            var (y, c') := RenderAll(b, p, e, c);
            RenderAll(a + b, p, e, counter) == (x + y, c')
    decreases |a|
  {
    if |a| == 0 {
      assert a + b == b;
      assert "" + RenderAll(b, p, e, counter).0 == RenderAll(b, p, e, counter).0;
    } else {
      var (h, c) := Render(a[0], p, e, counter);
      var (x, ca) := RenderAll(a[1..], p, e, c);
      var (y, c') := RenderAll(b, p, e, ca);
      assert (a + b)[0] == a[0];
      assert (a + b)[1..] == a[1..] + b;
      RenderAllAppend(a[1..], b, p, e, c);
      assert RenderAll(a + b, p, e, counter) == (h + (x + y), c');
      assert h + (x + y) == (h + x) + y;
    }
  }

  /** The list of formatters a MultiFormatter applies in turn. */
  datatype MultiFormatter = MultiFormatter(formatters: seq<Formatter>)

  function Format(mf: MultiFormatter, p: Printer, e: Entry, counter: nat): (r: (string, nat))
    requires counter < U64
  {
    RenderAll(mf.formatters, p, e, counter)
  }

  /** SetFormatters replaces the list wholesale. */
  function SetFormatters(mf: MultiFormatter, fs: seq<Formatter>): (r: MultiFormatter)
  {
    MultiFormatter(fs)
  }

  /** After SetFormatters only the new list decides the output: two
      MultiFormatters given the same list format every entry alike. */
  lemma SetFormattersReplaces(m1: MultiFormatter, m2: MultiFormatter, fs: seq<Formatter>, p: Printer, e: Entry, counter: nat)
    requires counter < U64
    ensures Format(SetFormatters(m1, fs), p, e, counter) == Format(SetFormatters(m2, fs), p, e, counter)
    ensures Format(SetFormatters(m1, fs), p, e, counter) == RenderAll(fs, p, e, counter)
  {
  }

  /** SetSequence: the shared counter takes the given value. */
  function SetSequence(s: nat): (r: nat)
    requires s < U64
    ensures r < U64
  {
    s
  }

  /** The outputs of `n` successive renders of one formatter, threading
      the counter from one render to the next. */
  function Renders(f: Formatter, p: Printer, e: Entry, counter: nat, n: nat): (r: seq<string>)
    requires counter < U64
    ensures |r| == n
    decreases n
  {
    if n == 0 then []
    else
      var (out, c) := Render(f, p, e, counter);
      [out] + Renders(f, p, e, c, n - 1)
  }

  /** The number the k-th render (counting from 0) of "%{id}" prints after
      SetSequence(s): s + k + 1, wrapping at 2^64. */
  function NthSequence(s: nat, k: nat): nat
  {
    (s + k + 1) % U64
  }

  lemma {:induction false} ModAddMultiple(q: nat, b: nat)
    ensures (q * U64 + b) % U64 == b % U64
  {
    if q > 0 {
      ModAddMultiple(q - 1, b);
      assert q * U64 + b == ((q - 1) * U64 + b) + U64;
    }
  }

  lemma ModAddLeft(x: nat, y: nat)
    ensures ((x % U64) + y) % U64 == (x + y) % U64
  {
    var q, r := x / U64, x % U64;
    assert x + y == q * U64 + (r + y);
    ModAddMultiple(q, r + y);
  }

  /** After SetSequence(s), the k-th of n renders of "%{id}" prints s+k+1
      in decimal (counting k from 0, modulo 2^64). */
  lemma {:induction false} SequenceRenders(p: Printer, e: Entry, s: nat, n: nat)
    requires s < U64
    ensures forall k :: 0 <= k < n ==>
              Renders(SequenceFormatter("%d"), p, e, SetSequence(s), n)[k] == NatToString(NthSequence(s, k))
    decreases n
  {
    if n > 0 {
      var f := SequenceFormatter("%d");
      var next := (s + 1) % U64;
      assert Render(f, p, e, s) == (NatToString(next), next);
      SequenceRenders(p, e, next, n - 1);
      var r := Renders(f, p, e, s, n);
      var tail := Renders(f, p, e, next, n - 1);
      assert r == [NatToString(next)] + tail;
      forall k | 1 <= k < n
        ensures r[k] == NatToString(NthSequence(s, k))
      {
        assert r[k] == tail[k - 1] == NatToString(NthSequence(next, k - 1));
        ModAddLeft(s + 1, k);
      }
    }
  }

  lemma ModDistinct(a: nat, d: nat)
    requires 0 < d < U64
    ensures a % U64 != (a + d) % U64
  {
    var q, r := a / U64, a % U64;
    assert a + d == q * U64 + (r + d);
    ModAddMultiple(q, r + d);
  }

  /** Up to 2^64 successive renders of "%{id}" print pairwise distinct
      numbers, so each value appears exactly once. */
  lemma SequenceDistinct(p: Printer, e: Entry, s: nat, n: nat)
    requires s < U64 && n <= U64
    ensures forall i, j :: 0 <= i < j < n ==>
              Renders(SequenceFormatter("%d"), p, e, SetSequence(s), n)[i]
              != Renders(SequenceFormatter("%d"), p, e, SetSequence(s), n)[j]
  {
    SequenceRenders(p, e, s, n);
    forall i, j | 0 <= i < j < n
      ensures NatToString(NthSequence(s, i)) != NatToString(NthSequence(s, j))
    {
      NthSequenceDistinct(s, i, j);
    }
  }

  /** Two of the first 2^64 values taken after `s` print differently. */
  lemma NthSequenceDistinct(s: nat, i: nat, j: nat)
    requires i < j < U64
    ensures NatToString(NthSequence(s, i)) != NatToString(NthSequence(s, j))
  {
    ModDistinct(s + i + 1, j - i);
    assert s + j + 1 == (s + i + 1) + (j - i);
    ParseNatToString(NthSequence(s, i));
    ParseNatToString(NthSequence(s, j));
  }

  // ---------------------------------------------------------------------
  // Examples
  // ---------------------------------------------------------------------

  /** The empty pattern has no formatters. */
  lemma EmptyPattern()
    ensures ParseFormat("") == Success([])
  {
  }

  /** A pattern with no directive is one literal. */
  lemma PlainPattern(s: string)
    requires s != "" && '%' !in s
    ensures ParseFormat(s) == Success([StringFormatter(s)])
  {
    forall j | 0 <= j < |s|
      ensures MatchAt(s, j).None?
    {
      assert "%{" == "%" + "{";
      StartsAtConcat(s, j, "%", "{");
      StartsAtChar(s, j, '%');
    }
    TokenizeNoDirective(s);
    var r := Compile([Literal(s)]);
    assert !IsBadPiece([Literal(s)][0]);
    assert r.Success? && |r.value| == 1;
    assert PieceFormatter([Literal(s)][0]) == Success(r.value[0]);
    assert r.value == [StringFormatter(s)];
  }
}
