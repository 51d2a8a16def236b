/** The handful of Go `strings`/`strconv` operations the logging core relies
    on, over strings modelled as sequences of characters (one character per
    byte of the Go string). */
module Strings {

  /** Index of the first `c` in `s`, or -1 (strings.Index with a one-byte separator). */
  function IndexOf(s: string, c: char): (r: int)
    ensures -1 <= r < |s|
    ensures r >= 0 ==> s[r] == c
    ensures forall j :: 0 <= j < |s| && (r < 0 || j < r) ==> s[j] != c
  {
    if |s| == 0 then -1
    else if s[0] == c then 0
    else
      var r := IndexOf(s[1..], c);
      if r < 0 then -1 else r + 1
  }

  /** IndexOf is the first position holding `c`. */
  lemma IndexOfIsFirst(s: string, c: char, i: int)
    requires 0 <= i < |s| && s[i] == c
    requires forall j :: 0 <= j < i ==> s[j] != c
    ensures IndexOf(s, c) == i
  {
  }

  /** Index of the last `c` in `s`, or -1 (strings.LastIndex). */
  function LastIndexOf(s: string, c: char): (r: int)
    ensures -1 <= r < |s|
    ensures r >= 0 ==> s[r] == c
    ensures forall i :: r < i < |s| ==> s[i] != c
  {
    if |s| == 0 then -1
    else if s[|s| - 1] == c then |s| - 1
    else LastIndexOf(s[..|s| - 1], c)
  }

  /** strings.Join with a one-character separator. */
  function Join(parts: seq<string>, sep: char): string
  {
    if |parts| == 0 then ""
    else if |parts| == 1 then parts[0]
    else parts[0] + [sep] + Join(parts[1..], sep)
  }

  /** strings.Split with a one-character separator: the pieces between the
      separators, never an empty list (the empty string splits into [""]). */
  function Split(s: string, sep: char): (r: seq<string>)
    ensures |r| >= 1
    decreases |s|
  {
    var i := IndexOf(s, sep);
    if i < 0 then [s] else [s[..i]] + Split(s[i + 1..], sep)
  }

  /** No piece of a split holds the separator. */
  lemma {:induction false} SplitPiecesFree(s: string, sep: char)
    ensures forall k :: 0 <= k < |Split(s, sep)| ==> sep !in Split(s, sep)[k]
    decreases |s|
  {
    var i := IndexOf(s, sep);
    if i >= 0 {
      var head := s[..i];
      var rest := Split(s[i + 1..], sep);
      SplitPiecesFree(s[i + 1..], sep);
      assert sep !in head by {
        assert forall j :: 0 <= j < i ==> head[j] != sep;
      }
      assert forall k :: 1 <= k < |rest| + 1 ==> ([head] + rest)[k] == rest[k - 1];
    }
  }

  /** Joining the pieces of a split gives the original string back. */
  lemma {:induction false} JoinSplit(s: string, sep: char)
    ensures Join(Split(s, sep), sep) == s
    decreases |s|
  {
    var i := IndexOf(s, sep);
    if i >= 0 {
      JoinSplit(s[i + 1..], sep);
      JoinSplitCons(s, sep, i);
    }
  }

  /** The step of JoinSplit past the first separator of `s`. */
  lemma JoinSplitCons(s: string, sep: char, i: int)
    requires i == IndexOf(s, sep) && i >= 0
    requires Join(Split(s[i + 1..], sep), sep) == s[i + 1..]
    ensures Join(Split(s, sep), sep) == s
  {
    var head, tail := s[..i], s[i + 1..];
    calc {
      Join(Split(s, sep), sep);
      { SplitAt(s, sep, i); }
      Join([head] + Split(tail, sep), sep);
      { JoinCons(head, Split(tail, sep), sep); }
      head + [sep] + Join(Split(tail, sep), sep);
      head + [sep] + tail;
      { assert s == head + [sep] + tail; }
      s;
    }
  }

  /** Joining one more part in front puts it and a separator in front. */
  lemma JoinCons(head: string, rest: seq<string>, sep: char)
    requires |rest| >= 1
    ensures Join([head] + rest, sep) == head + [sep] + Join(rest, sep)
  {
    assert ([head] + rest)[1..] == rest;
  }

  /** Splitting a join gives the parts back, provided no part holds the separator. */
  lemma {:induction false} SplitJoin(parts: seq<string>, sep: char)
    requires |parts| >= 1
    requires forall k :: 0 <= k < |parts| ==> sep !in parts[k]
    ensures Split(Join(parts, sep), sep) == parts
  {
    if |parts| == 1 {
      assert IndexOf(parts[0], sep) < 0;
    } else {
      var s := Join(parts, sep);
      var tail := Join(parts[1..], sep);
      assert s == parts[0] + [sep] + tail;
      assert s[..|parts[0]|] == parts[0];
      IndexOfIsFirst(s, sep, |parts[0]|);
      assert s[|parts[0]| + 1..] == tail;
      SplitJoin(parts[1..], sep);
    }
  }

  /** One unfolding of Split at the first separator. */
  lemma SplitAt(s: string, sep: char, i: int)
    requires 0 <= i < |s| && s[i] == sep
    requires forall j :: 0 <= j < i ==> s[j] != sep
    ensures Split(s, sep) == [s[..i]] + Split(s[i + 1..], sep)
  {
    IndexOfIsFirst(s, sep, i);
  }

  /** Splitting `a + sep + b` splits `a` and `b` separately. */
  lemma {:induction false} SplitConcat(a: string, b: string, sep: char)
    ensures Split(a + [sep] + b, sep) == Split(a, sep) + Split(b, sep)
    decreases |a|
  {
    var i := IndexOf(a, sep);
    if i < 0 {
      SplitConcatPlain(a, b, sep);
    } else {
      SplitConcat(a[i + 1..], b, sep);
      SplitConcatCons(a, b, sep, i);
    }
  }

  /** The step of SplitConcat past the first separator of `a`. */
  lemma SplitConcatCons(a: string, b: string, sep: char, i: int)
    requires i == IndexOf(a, sep) && i >= 0
    requires Split(a[i + 1..] + [sep] + b, sep) == Split(a[i + 1..], sep) + Split(b, sep)
    ensures Split(a + [sep] + b, sep) == Split(a, sep) + Split(b, sep)
  {
    var head, rest, tail := [a[..i]], Split(a[i + 1..], sep), Split(b, sep);
    calc {
      Split(a + [sep] + b, sep);
      { SplitConcatStep(a, b, sep, i); }
      head + Split(a[i + 1..] + [sep] + b, sep);
      head + (rest + tail);
      { assert head + (rest + tail) == (head + rest) + tail; }
      (head + rest) + tail;
      { SplitConcatStep(a, b, sep, i); }
      Split(a, sep) + tail;
    }
  }

  /** The first split step of `a + sep + b` when `a` holds no separator. */
  lemma SplitConcatPlain(a: string, b: string, sep: char)
    requires IndexOf(a, sep) < 0
    ensures Split(a + [sep] + b, sep) == [a] + Split(b, sep)
  {
    var s := a + [sep] + b;
    SplitAt(s, sep, |a|);
    assert s[..|a|] == a;
    assert s[|a| + 1..] == b;
  }

  /** The first split step of `a + sep + b` when `a` itself holds a separator. */
  lemma SplitConcatStep(a: string, b: string, sep: char, i: int)
    requires i == IndexOf(a, sep) && i >= 0
    ensures Split(a + [sep] + b, sep) == [a[..i]] + Split(a[i + 1..] + [sep] + b, sep)
    ensures Split(a, sep) == [a[..i]] + Split(a[i + 1..], sep)
  {
    var s := a + [sep] + b;
    assert s[..i] == a[..i];
    assert s[i + 1..] == a[i + 1..] + [sep] + b;
    SplitAt(s, sep, i);
  }

  /** strings.TrimSuffix with a one-character suffix: drops at most one trailing `c`. */
  function TrimSuffix(s: string, c: char): (r: string)
    ensures r == s || (s == r + [c])
    ensures |s| > 0 && s[|s| - 1] == c ==> |r| == |s| - 1
  {
    if |s| > 0 && s[|s| - 1] == c then s[..|s| - 1] else s
  }

  /** strings.TrimRight with a one-character cutset: drops every trailing `c`. */
  function TrimRight(s: string, c: char): (r: string)
    ensures |r| <= |s| && r == s[..|r|]
    ensures |r| > 0 ==> r[|r| - 1] != c
    ensures forall i :: |r| <= i < |s| ==> s[i] == c
  {
    if |s| > 0 && s[|s| - 1] == c then TrimRight(s[..|s| - 1], c) else s
  }

  // ---------------------------------------------------------------------------
  // Decimal rendering (fmt's %d) and its inverse.

  predicate IsDigit(c: char) { '0' <= c <= '9' }

  predicate AllDigits(s: string) { forall i :: 0 <= i < |s| ==> IsDigit(s[i]) }

  function DigitChar(d: nat): (c: char)
    requires d < 10
    ensures IsDigit(c) && (c as int) - ('0' as int) == d
  {
    (('0' as int) + d) as char
  }

  /** Decimal digits of `n`, most significant first, no leading zero. */
  function NatToString(n: nat): (r: string)
    ensures |r| >= 1 && AllDigits(r)
    ensures r[0] == '0' ==> n == 0
  {
    if n < 10 then [DigitChar(n)] else NatToString(n / 10) + [DigitChar(n % 10)]
  }

  /** The value of a string of decimal digits. */
  function ParseNat(s: string): nat
    requires AllDigits(s)
  {
    if |s| == 0 then 0
    else ParseNat(s[..|s| - 1]) * 10 + ((s[|s| - 1] as int) - ('0' as int))
  }

  /** A decimal numeral as %d writes it: at least one digit, and no leading
      zero unless the numeral is "0" itself. */
  predicate CanonicalDigits(s: string)
  {
    |s| >= 1 && AllDigits(s) && (s[0] == '0' ==> |s| == 1)
  }

  /** %d writes canonical numerals. */
  lemma NatToStringCanonical(n: nat)
    ensures CanonicalDigits(NatToString(n))
  {
  }

  /** A numeral that does not start with '0' has a positive value. */
  lemma {:induction false} ParseNatLeading(s: string)
    requires |s| >= 1 && AllDigits(s) && s[0] != '0'
    ensures ParseNat(s) >= 1
  {
    if |s| > 1 {
      var p := s[..|s| - 1];
      assert p[0] == s[0];
      ParseNatLeading(p);
    }
  }

  /** Printing the value of a canonical numeral gives the numeral back. */
  lemma {:induction false} NatToStringParseNat(s: string)
    requires CanonicalDigits(s)
    ensures NatToString(ParseNat(s)) == s
  {
    var n := ParseNat(s);
    if |s| == 1 {
      assert ParseNat(s[..0]) == 0;
      assert n == (s[|s| - 1] as int) - ('0' as int);
      assert NatToString(n) == [DigitChar(n)];
    } else {
      var p := s[..|s| - 1];
      assert p[0] == s[0];
      NatToStringParseNat(p);
      ParseNatLeading(p);
      assert n / 10 == ParseNat(p) && n % 10 == (s[|s| - 1] as int) - ('0' as int);
      assert NatToString(n) == NatToString(n / 10) + [DigitChar(n % 10)];
      assert s == p + [s[|s| - 1]];
    }
  }

  lemma {:induction false} ParseNatToString(n: nat)
    ensures ParseNat(NatToString(n)) == n
  {
    if n >= 10 {
      var r := NatToString(n);
      assert r[..|r| - 1] == NatToString(n / 10);
      ParseNatToString(n / 10);
    }
  }

  /** Distinct numbers render as distinct decimal strings. */
  lemma NatToStringInjective(m: nat, n: nat)
    requires NatToString(m) == NatToString(n)
    ensures m == n
  {
    ParseNatToString(m);
    ParseNatToString(n);
  }

  /** fmt's %d on a signed integer. */
  function IntToString(i: int): (r: string)
    ensures |r| >= 1
    ensures r[0] == '-' <==> i < 0
  {
    if i < 0 then "-" + NatToString(-i) else NatToString(i)
  }

  // ---------------------------------------------------------------------------
  // Byte-wise lexicographic order (Go's `<=` on strings, used by sort.Strings).

  predicate LexLe(a: string, b: string)
  {
    |a| == 0 || (|b| > 0 && (a[0] < b[0] || (a[0] == b[0] && LexLe(a[1..], b[1..]))))
  }

  lemma {:induction false} LexLeTotal(a: string, b: string)
    ensures LexLe(a, b) || LexLe(b, a)
  {
    if |a| > 0 && |b| > 0 && a[0] == b[0] {
      LexLeTotal(a[1..], b[1..]);
    }
  }

  lemma {:induction false} LexLeAntisymmetric(a: string, b: string)
    requires LexLe(a, b) && LexLe(b, a)
    ensures a == b
  {
    if |a| > 0 && |b| > 0 {
      LexLeAntisymmetric(a[1..], b[1..]);
      assert a == [a[0]] + a[1..];
      assert b == [b[0]] + b[1..];
    }
  }

  lemma {:induction false} LexLeTransitive(a: string, b: string, c: string)
    requires LexLe(a, b) && LexLe(b, c)
    ensures LexLe(a, c)
  {
    if |a| > 0 && |b| > 0 && |c| > 0 && a[0] == b[0] && b[0] == c[0] {
      LexLeTransitive(a[1..], b[1..], c[1..]);
    }
  }
}
