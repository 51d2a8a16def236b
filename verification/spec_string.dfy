/** LoggerLevels.Spec (common/clogging/loggerLevels.go): the active spec
    written back out as sorted `name=level` fields followed by the default
    level, joined by ':'. */
module SpecString {
  import opened Wrappers
  import opened Strings
  import opened Levels
  import opened LoggerLevels

  /** The `name=level` text of one per-logger entry. */
  function FieldOf(specs: map<string, Level>, k: string): string
    requires k in specs
  {
    k + "=" + LevelString(specs[k])
  }

  predicate AllIn(keys: seq<string>, specs: map<string, Level>)
  {
    forall i :: 0 <= i < |keys| ==> keys[i] in specs
  }

  /** `keys` lists every key of `specs` exactly once. */
  predicate IsEnumeration(keys: seq<string>, specs: map<string, Level>)
  {
    multiset(keys) == multiset(specs.Keys)
  }

  lemma EnumerationFacts(keys: seq<string>, specs: map<string, Level>)
    requires IsEnumeration(keys, specs)
    ensures AllIn(keys, specs)
    ensures forall k :: k in specs ==> k in keys
  {
    forall i | 0 <= i < |keys|
      ensures keys[i] in specs
    {
      assert keys[i] in multiset(keys);
    }
    forall k | k in specs
      ensures k in keys
    {
      assert k in multiset(specs.Keys);
    }
  }

  /** The entries are in ascending byte order of their `name=level` text. */
  predicate SortedByField(keys: seq<string>, specs: map<string, Level>)
    requires AllIn(keys, specs)
  {
    forall i, j :: 0 <= i < j < |keys| ==> LexLe(FieldOf(specs, keys[i]), FieldOf(specs, keys[j]))
  }

  function Fields(keys: seq<string>, specs: map<string, Level>): (r: seq<string>)
    requires AllIn(keys, specs)
    ensures |r| == |keys|
    ensures forall i :: 0 <= i < |keys| ==> r[i] == FieldOf(specs, keys[i])
  {
    if |keys| == 0 then [] else [FieldOf(specs, keys[0])] + Fields(keys[1..], specs)
  }

  /** Prepending a key no greater than any element keeps a list sorted. */
  lemma ConsSorted(k: string, sorted: seq<string>, specs: map<string, Level>)
    requires k in specs && AllIn(sorted, specs) && SortedByField(sorted, specs)
    requires forall j :: 0 <= j < |sorted| ==> LexLe(FieldOf(specs, k), FieldOf(specs, sorted[j]))
    ensures AllIn([k] + sorted, specs) && SortedByField([k] + sorted, specs)
  {
    var r := [k] + sorted;
    assert forall j :: 1 <= j < |r| ==> r[j] == sorted[j - 1];
  }

  /** The head of a sorted list is no greater than anything in it. */
  lemma SortedHeadIsLeast(sorted: seq<string>, specs: map<string, Level>, x: string)
    requires AllIn(sorted, specs) && SortedByField(sorted, specs)
    requires x in multiset(sorted)
    ensures |sorted| > 0 && x in specs && LexLe(FieldOf(specs, sorted[0]), FieldOf(specs, x))
  {
    var i :| 0 <= i < |sorted| && sorted[i] == x;
    if i == 0 {
      LexLeReflexive(FieldOf(specs, x));
    }
  }

  lemma {:induction false} LexLeReflexive(a: string)
    ensures LexLe(a, a)
  {
    if |a| > 0 {
      LexLeReflexive(a[1..]);
    }
  }

  /** Insert one key into a sorted list of keys, keeping it sorted. */
  function Insert(k: string, sorted: seq<string>, specs: map<string, Level>): (r: seq<string>)
    requires k in specs && AllIn(sorted, specs) && SortedByField(sorted, specs)
    ensures multiset(r) == multiset(sorted) + multiset{k}
    ensures AllIn(r, specs) && SortedByField(r, specs)
  {
    if |sorted| == 0 then [k]
    else if LexLe(FieldOf(specs, k), FieldOf(specs, sorted[0])) then
      InsertFront(k, sorted, specs);
      [k] + sorted
    else
      SortedTail(sorted, specs);
      var tail := Insert(k, sorted[1..], specs);
      InsertBehind(k, sorted, tail, specs);
      [sorted[0]] + tail
  }

  /** A key no greater than the head of a sorted list can go in front of it. */
  lemma InsertFront(k: string, sorted: seq<string>, specs: map<string, Level>)
    requires k in specs && AllIn(sorted, specs) && SortedByField(sorted, specs)
    requires |sorted| > 0 && LexLe(FieldOf(specs, k), FieldOf(specs, sorted[0]))
    ensures AllIn([k] + sorted, specs) && SortedByField([k] + sorted, specs)
  {
    forall j | 0 <= j < |sorted|
      ensures LexLe(FieldOf(specs, k), FieldOf(specs, sorted[j]))
    {
      SortedHeadIsLeast(sorted, specs, sorted[j]);
      LexLeTransitive(FieldOf(specs, k), FieldOf(specs, sorted[0]), FieldOf(specs, sorted[j]));
    }
    ConsSorted(k, sorted, specs);
  }

  /** A key greater than the head of a sorted list goes behind it: the head
      stays in front of the rest with the key inserted. */
  lemma InsertBehind(k: string, sorted: seq<string>, tail: seq<string>, specs: map<string, Level>)
    requires k in specs && AllIn(sorted, specs) && SortedByField(sorted, specs)
    requires |sorted| > 0 && !LexLe(FieldOf(specs, k), FieldOf(specs, sorted[0]))
    requires multiset(tail) == multiset(sorted[1..]) + multiset{k}
    requires AllIn(tail, specs) && SortedByField(tail, specs)
    ensures AllIn([sorted[0]] + tail, specs) && SortedByField([sorted[0]] + tail, specs)
    ensures multiset([sorted[0]] + tail) == multiset(sorted) + multiset{k}
  {
    var head := sorted[0];
    assert sorted == [head] + sorted[1..];
    LexLeTotal(FieldOf(specs, k), FieldOf(specs, head));
    forall j | 0 <= j < |tail|
      ensures LexLe(FieldOf(specs, head), FieldOf(specs, tail[j]))
    {
      assert tail[j] in multiset(tail);
      if tail[j] != k {
        SortedHeadIsLeast(sorted, specs, tail[j]);
      }
    }
    ConsSorted(head, tail, specs);
  }

  /** Insertion sort of keys by their `name=level` text. */
  function SortKeys(keys: seq<string>, specs: map<string, Level>): (r: seq<string>)
    requires AllIn(keys, specs)
    ensures multiset(r) == multiset(keys)
    ensures AllIn(r, specs) && SortedByField(r, specs)
  {
    if |keys| == 0 then []
    else
      assert keys == [keys[0]] + keys[1..];
      Insert(keys[0], SortKeys(keys[1..], specs), specs)
  }

  /** The canonical text of a spec, given the order its entries are written in. */
  function SpecText(keys: seq<string>, specs: map<string, Level>, defaultLevel: Level): string
    requires AllIn(keys, specs)
  {
    Join(Fields(keys, specs) + [LevelString(defaultLevel)], ':')
  }

  /** Spec: collect the entries in whatever order the map yields them, sort
      them by their `name=level` text, append the default level's name, and
      join with ':'. */
  method Spec(st: LoggerLevels) returns (s: string, keys: seq<string>)
    ensures IsEnumeration(keys, st.specs) && AllIn(keys, st.specs) && SortedByField(keys, st.specs)
    ensures s == SpecText(keys, st.specs, st.defaultLevel)
  {
    var unsorted: seq<string> := [];
    var rest := st.specs.Keys;
    while rest != {}
      invariant rest <= st.specs.Keys
      invariant multiset(unsorted) + multiset(rest) == multiset(st.specs.Keys)
      decreases rest
    {
      var k :| k in rest;
      unsorted := unsorted + [k];
      assert multiset(rest) == multiset(rest - {k}) + multiset{k};
      rest := rest - {k};
    }
    EnumerationFacts(unsorted, st.specs);
    var sorted := SortKeys(unsorted, st.specs);
    EnumerationFacts(sorted, st.specs);
    keys := sorted;
    s := SpecText(sorted, st.specs, st.defaultLevel);
  }

  /** Distinct keys without '=' give distinct fields. */
  lemma FieldInjective(specs: map<string, Level>, a: string, b: string)
    requires a in specs && b in specs && '=' !in a && '=' !in b
    requires FieldOf(specs, a) == FieldOf(specs, b)
    ensures a == b
  {
    var fa, fb := FieldOf(specs, a), FieldOf(specs, b);
    assert forall i :: 0 <= i < |a| ==> fa[i] == a[i];
    assert forall i :: 0 <= i < |b| ==> fb[i] == b[i];
    assert fa[|a|] == '=' && fb[|b|] == '=';
    assert |a| == |b|;
    assert fa[..|a|] == a && fb[..|b|] == b;
  }

  /** Sorting is canonical: two sorted lists of the same keys are the same
      list, so the text Spec produces does not depend on map iteration order. */
  lemma {:induction false} SortedUnique(a: seq<string>, b: seq<string>, specs: map<string, Level>)
    requires AllIn(a, specs) && AllIn(b, specs)
    requires forall i :: 0 <= i < |a| ==> '=' !in a[i]
    requires multiset(a) == multiset(b)
    requires SortedByField(a, specs) && SortedByField(b, specs)
    ensures a == b
  {
    if |a| > 0 {
      SortedSameHead(a, b, specs);
      SortedTail(a, specs);
      SortedTail(b, specs);
      SameTailKeys(a, b);
      SortedUnique(a[1..], b[1..], specs);
      assert a == [a[0]] + a[1..];
    } else {
      assert |multiset(b)| == 0;
    }
  }

  /** Two sorted lists of the same keys start with the same key. */
  lemma SortedSameHead(a: seq<string>, b: seq<string>, specs: map<string, Level>)
    requires |a| > 0 && AllIn(a, specs) && AllIn(b, specs)
    requires forall i :: 0 <= i < |a| ==> '=' !in a[i]
    requires multiset(a) == multiset(b)
    requires SortedByField(a, specs) && SortedByField(b, specs)
    ensures |b| > 0 && a[0] == b[0]
  {
    assert a[0] in multiset(a);
    SortedHeadIsLeast(b, specs, a[0]);
    assert b[0] in multiset(b);
    SortedHeadIsLeast(a, specs, b[0]);
    LexLeAntisymmetric(FieldOf(specs, a[0]), FieldOf(specs, b[0]));
    assert '=' !in b[0] by {
      var i :| 0 <= i < |a| && a[i] == b[0];
    }
    FieldInjective(specs, a[0], b[0]);
  }

  lemma SameTailKeys(a: seq<string>, b: seq<string>)
    requires |a| > 0 && |b| > 0 && a[0] == b[0] && multiset(a) == multiset(b)
    ensures multiset(a[1..]) == multiset(b[1..])
  {
    assert a == [a[0]] + a[1..];
    assert b == [b[0]] + b[1..];
    assert multiset(a) == multiset{a[0]} + multiset(a[1..]);
    assert multiset(b) == multiset{a[0]} + multiset(b[1..]);
    forall x
      ensures multiset(a[1..])[x] == multiset(b[1..])[x]
    {
      assert multiset(a)[x] == multiset{a[0]}[x] + multiset(a[1..])[x];
      assert multiset(b)[x] == multiset{a[0]}[x] + multiset(b[1..])[x];
    }
  }

  /** Dropping the head keeps a list sorted and removes one copy of the head. */
  lemma SortedTail(a: seq<string>, specs: map<string, Level>)
    requires |a| > 0 && AllIn(a, specs) && SortedByField(a, specs)
    ensures AllIn(a[1..], specs) && SortedByField(a[1..], specs)
    ensures multiset(a) == multiset{a[0]} + multiset(a[1..])
    ensures forall i :: 0 <= i < |a| - 1 ==> a[1..][i] == a[i + 1]
  {
    assert a == [a[0]] + a[1..];
  }

  /** A written-out field parses back as a one-logger segment. */
  lemma FieldParses(specs: map<string, Level>, k: string)
    requires k in specs && IsValidKey(k) && IsPrintable(specs[k])
    ensures ParseSegment(FieldOf(specs, k)) == Success(LoggersSegment([k], specs[k]))
  {
    var name := LevelString(specs[k]);
    ValidKeyShape(k);
    LevelStringRoundTrip(specs[k]);
    LevelStringSeparatorFree(specs[k]);
    assert FieldOf(specs, k) == k + ['='] + name;
    SplitConcat(k, name, '=');
    assert forall j :: 0 <= j < |k| ==> k[j] != '=' && k[j] != ',';
    SplitNoSeparator(k, '=');
    SplitNoSeparator(k, ',');
    SplitNoSeparator(name, '=');
  }

  /** The per-logger map after assigning each listed key its level in turn. */
  function UpdateAll(m: map<string, Level>, keys: seq<string>, specs: map<string, Level>): (r: map<string, Level>)
    requires AllIn(keys, specs)
    ensures forall k :: k in r <==> k in m || k in keys
    ensures forall k :: k in keys ==> k in r && r[k] == specs[k]
    ensures forall k :: k in r && k !in keys ==> r[k] == m[k]
    decreases |keys|
  {
    if |keys| == 0 then m
    else
      assert forall x :: x in keys <==> x == keys[0] || x in keys[1..] by {
        assert keys == [keys[0]] + keys[1..];
      }
      UpdateAll(m[keys[0] := specs[keys[0]]], keys[1..], specs)
  }

  /** Assigning every key of `specs` its own level rebuilds `specs`. */
  lemma UpdateAllCovers(keys: seq<string>, specs: map<string, Level>)
    requires AllIn(keys, specs)
    requires forall k :: k in specs ==> k in keys
    ensures UpdateAll(map[], keys, specs) == specs
  {
    var r := UpdateAll(map[], keys, specs);
    assert forall k :: k in r <==> k in keys;
    assert forall k :: k in keys ==> k in specs by {
      forall k | k in keys ensures k in specs {
        var i :| 0 <= i < |keys| && keys[i] == k;
      }
    }
    assert r.Keys == specs.Keys;
  }

  lemma {:induction false} ParseFields(keys: seq<string>, specs: map<string, Level>, acc: LevelSpec)
    requires AllIn(keys, specs)
    requires forall i :: 0 <= i < |keys| ==> IsValidKey(keys[i]) && IsPrintable(specs[keys[i]])
    ensures ParseSegments(Fields(keys, specs), acc)
         == Success(acc.(specs := UpdateAll(acc.specs, keys, specs)))
  {
    if |keys| > 0 {
      var k := keys[0];
      FieldParses(specs, k);
      var next := ApplySegment(LoggersSegment([k], specs[k]), acc);
      assert next.specs == acc.specs[k := specs[k]];
      assert Fields(keys, specs)[1..] == Fields(keys[1..], specs);
      ParseFields(keys[1..], specs, next);
    }
  }

  /** Round trip: parsing the written-out text of a spec gives the spec back,
      provided every level has a printable name (Payload prints as a non-name). */
  lemma SpecTextRoundTrip(keys: seq<string>, specs: map<string, Level>, d: Level)
    requires IsEnumeration(keys, specs)
    requires forall k :: k in specs ==> IsValidKey(k) && ':' !in k && IsPrintable(specs[k])
    requires IsPrintable(d)
    ensures AllIn(keys, specs)
    ensures ParseSpec(SpecText(keys, specs, d)) == Success(LevelSpec(d, specs))
  {
    EnumerationFacts(keys, specs);
    var fields := Fields(keys, specs);
    var name := LevelString(d);
    var segments := fields + [name];
    LevelStringSeparatorFree(d);
    forall i | 0 <= i < |segments|
      ensures ':' !in segments[i]
    {
      if i < |fields| {
        var k := keys[i];
        LevelStringSeparatorFree(specs[k]);
        assert segments[i] == k + "=" + LevelString(specs[k]);
      }
    }
    SplitJoin(segments, ':');
    var init := LevelSpec(InfoLevel, map[]);
    ParseSegmentsAppend(fields, [name], init);
    ParseFields(keys, specs, init);
    UpdateAllCovers(keys, specs);
    LevelStringRoundTrip(d);
    NoOccurrence(name, '=');
    ParseSegmentBare(name);
  }

  /** For every state ActivateSpec can produce from a spec without Payload
      levels, parsing Spec's text reproduces the active default and entries. */
  lemma SpecReparses(spec: string, keys: seq<string>)
    requires ParseSpec(spec).Success?
    requires IsPrintable(ParseSpec(spec).value.defaultLevel)
    requires forall k :: k in ParseSpec(spec).value.specs ==> IsPrintable(ParseSpec(spec).value.specs[k])
    requires IsEnumeration(keys, ParseSpec(spec).value.specs)
    ensures AllIn(keys, ParseSpec(spec).value.specs)
    ensures ParseSpec(SpecText(keys, ParseSpec(spec).value.specs, ParseSpec(spec).value.defaultLevel))
         == ParseSpec(spec)
  {
    ParseSpecWellFormed(spec);
    SpecTextRoundTrip(keys, ParseSpec(spec).value.specs, ParseSpec(spec).value.defaultLevel);
  }
}
