/**
  The home feed's filter compiler: it turns the user's filter conditions into
  one textual filter expression, a conjunction of sub-expressions joined by
  `" && "`. Flag and date conditions contribute their sub-expressions in input
  order as they are met; all content searches are gathered into one
  `content_search == [...]` conjunct and all tag searches into one
  `tag_search == [...]` conjunct, which come last, content before tag.
 */
module MemoFilter {
  import opened Strings

  /**
    One filter condition, by its factor. The seven factors the compiler
    recognises (`contentSearch`, `tagSearch`, `pinned`, `property.hasLink`,
    `property.hasTaskList`, `property.hasCode`, `displayTime`) each have
    their own constructor; `Unknown` stands for a condition whose factor is
    none of these, so a recognised factor name is never held by `Unknown`.
   */
  datatype Condition =
    | ContentSearch(text: string)
    | TagSearch(tag: string)
    | Pinned
    | HasLink
    | HasTaskList
    | HasCode
      /** `start` is the instant the page computes from the date value and the client's timezone offset, in Unix seconds. */
    | DisplayTime(start: int)
    | Unknown(factor: string, value: string)

  /** Length of the `displayTime` window: one day, in seconds. */
  const SecondsPerDay: int := 60 * 60 * 24

  const AfterPrefix: string := "display_time_after == "
  const BeforePrefix: string := "display_time_before == "

  /** A value spliced verbatim between double quotes (no escaping). */
  function Quote(v: string): string
  {
    "\"" + v + "\""
  }

  /** The sub-expressions one flag or date condition adds to `conditions`. */
  function Emit(c: Condition): seq<string>
  {
    match c
    case Pinned => ["pinned == true"]
    case HasLink => ["has_link == true"]
    case HasTaskList => ["has_task_list == true"]
    case HasCode => ["has_code == true"]
    case DisplayTime(t) => [AfterPrefix + IntToString(t), BeforePrefix + IntToString(t + SecondsPerDay)]
    case _ => []
  }

  /** What one condition adds to the `contentSearch` accumulator. */
  function ContentTerm(c: Condition): seq<string>
  {
    if c.ContentSearch? then [Quote(c.text)] else []
  }

  /** What one condition adds to the `tagSearch` accumulator. */
  function TagTerm(c: Condition): seq<string>
  {
    if c.TagSearch? then [Quote(c.tag)] else []
  }

  /** What an accumulator holds after a left-to-right pass over `fs` that appends `f(c)` for each `c`. */
  function Collect(fs: seq<Condition>, f: Condition -> seq<string>): seq<string>
  {
    if fs == [] then [] else Collect(fs[..|fs| - 1], f) + f(fs[|fs| - 1])
  }

  const ContentOpening: string := "content_search == ["
  const TagOpening: string := "tag_search == ["

  /** The conjunct that gathers the values of one search accumulator, if it is not empty. */
  function SearchConjunct(opening: string, terms: seq<string>): seq<string>
  {
    if |terms| > 0 then [opening + Join(terms, ", ") + "]"] else []
  }

  /** The list of conjuncts the compiler joins, in their final order. */
  function Conjuncts(fs: seq<Condition>): seq<string>
  {
    Collect(fs, Emit)
      + SearchConjunct(ContentOpening, Collect(fs, ContentTerm))
      + SearchConjunct(TagOpening, Collect(fs, TagTerm))
  }

  /** The compiled filter expression. */
  function Compile(fs: seq<Condition>): string
  {
    Join(Conjuncts(fs), " && ")
  }

  /**
    The compiler as the home page runs it: one pass over the conditions that
    pushes into three accumulators, then the two search conjuncts, then the join.
   */
  method CompileFilter(filters: seq<Condition>) returns (expr: string)
    ensures expr == Compile(filters)
  {
    var conditions: seq<string> := [];
    var contentSearch: seq<string> := [];
    var tagSearch: seq<string> := [];
    for i := 0 to |filters|
      invariant conditions == Collect(filters[..i], Emit)
      invariant contentSearch == Collect(filters[..i], ContentTerm)
      invariant tagSearch == Collect(filters[..i], TagTerm)
    {
      assert filters[..i + 1][..i] == filters[..i];
      match filters[i]
      case ContentSearch(v) =>
        contentSearch := contentSearch + [Quote(v)];
      case TagSearch(v) =>
        tagSearch := tagSearch + [Quote(v)];
      case Pinned =>
        conditions := conditions + ["pinned == true"];
      case HasLink =>
        conditions := conditions + ["has_link == true"];
      case HasTaskList =>
        conditions := conditions + ["has_task_list == true"];
      case HasCode =>
        conditions := conditions + ["has_code == true"];
      case DisplayTime(timestampAfter) =>
        conditions := conditions + [AfterPrefix + IntToString(timestampAfter)];
        conditions := conditions + [BeforePrefix + IntToString(timestampAfter + SecondsPerDay)];
      case Unknown(_, _) =>
    }
    assert filters[..|filters|] == filters;
    if |contentSearch| > 0 {
      conditions := conditions + [ContentOpening + Join(contentSearch, ", ") + "]"];
    }
    if |tagSearch| > 0 {
      conditions := conditions + [TagOpening + Join(tagSearch, ", ") + "]"];
    }
    assert conditions == Collect(filters, Emit) + SearchConjunct(ContentOpening, contentSearch) + SearchConjunct(TagOpening, tagSearch);
    expr := Join(conditions, " && ");
  }

  // ---------------------------------------------------------------------------
  // Counting conditions by kind

  predicate IsFlag(c: Condition)
  {
    c.Pinned? || c.HasLink? || c.HasTaskList? || c.HasCode?
  }

  predicate IsDate(c: Condition)
  {
    c.DisplayTime?
  }

  predicate IsContentSearch(c: Condition)
  {
    c.ContentSearch?
  }

  predicate IsTagSearch(c: Condition)
  {
    c.TagSearch?
  }

  /** Number of conditions in `fs` that satisfy `p`. */
  function Count(fs: seq<Condition>, p: Condition -> bool): nat
  {
    if fs == [] then 0 else Count(fs[..|fs| - 1], p) + (if p(fs[|fs| - 1]) then 1 else 0)
  }

  lemma {:induction false} CountPositive(fs: seq<Condition>, p: Condition -> bool)
    ensures Count(fs, p) > 0 <==> exists i :: 0 <= i < |fs| && p(fs[i])
  {
    if fs != [] {
      var init := fs[..|fs| - 1];
      CountPositive(init, p);
      assert forall i :: 0 <= i < |init| ==> init[i] == fs[i];
    }
  }

  // ---------------------------------------------------------------------------
  // The accumulators: order and contents

  /** An accumulator after a pass over `a + b` is the one after `a` followed by the one after `b`. */
  lemma {:induction false} CollectAppend(a: seq<Condition>, b: seq<Condition>, f: Condition -> seq<string>)
    ensures Collect(a + b, f) == Collect(a, f) + Collect(b, f)
  {
    if b == [] {
      assert a + b == a;
    } else {
      var b' := b[..|b| - 1];
      assert (a + b)[..|a + b| - 1] == a + b';
      assert (a + b)[|a + b| - 1] == b[|b| - 1];
      CollectAppend(a, b', f);
    }
  }

  /**
    Condition `i` contributes exactly `f(fs[i])`, placed right after what the
    conditions before it contributed.
   */
  lemma ContributionAt(fs: seq<Condition>, i: int, f: Condition -> seq<string>)
    requires 0 <= i < |fs|
    ensures var k := |Collect(fs[..i], f)|;
      k + |f(fs[i])| <= |Collect(fs, f)| && Collect(fs, f)[k .. k + |f(fs[i])|] == f(fs[i])
  {
    assert fs == fs[..i] + [fs[i]] + fs[i + 1..];
    CollectAppend(fs[..i] + [fs[i]], fs[i + 1..], f);
    CollectAppend(fs[..i], [fs[i]], f);
    assert Collect([fs[i]], f) == f(fs[i]) by {
      assert [fs[i]][..0] == [];
    }
  }

  /** Earlier conditions contribute before later ones. */
  lemma ContributionsInInputOrder(fs: seq<Condition>, i: int, j: int, f: Condition -> seq<string>)
    requires 0 <= i < j <= |fs|
    ensures |Collect(fs[..i], f)| + |f(fs[i])| <= |Collect(fs[..j], f)|
  {
    assert fs[..j] == fs[..i] + [fs[i]] + fs[i + 1..j];
    CollectAppend(fs[..i] + [fs[i]], fs[i + 1..j], f);
    CollectAppend(fs[..i], [fs[i]], f);
    assert Collect([fs[i]], f) == f(fs[i]) by {
      assert [fs[i]][..0] == [];
    }
  }

  /** One sub-expression per flag condition and two per date condition. */
  lemma {:induction false} EmittedLength(fs: seq<Condition>)
    ensures |Collect(fs, Emit)| == Count(fs, IsFlag) + 2 * Count(fs, IsDate)
  {
    if fs != [] {
      EmittedLength(fs[..|fs| - 1]);
    }
  }

  /** One quoted value per search condition of the matching kind. */
  lemma {:induction false} SearchTermsLength(fs: seq<Condition>)
    ensures |Collect(fs, ContentTerm)| == Count(fs, IsContentSearch)
    ensures |Collect(fs, TagTerm)| == Count(fs, IsTagSearch)
  {
    if fs != [] {
      SearchTermsLength(fs[..|fs| - 1]);
    }
  }

  /**
    The `i`-th condition, a content search for `v`, puts `"v"` into the
    `content_search` list at the position given by the number of content
    searches before it; tag searches likewise.
   */
  lemma SearchValueAt(fs: seq<Condition>, i: int)
    requires 0 <= i < |fs|
    ensures fs[i].ContentSearch? ==>
      Count(fs[..i], IsContentSearch) < |Collect(fs, ContentTerm)|
      && Collect(fs, ContentTerm)[Count(fs[..i], IsContentSearch)] == Quote(fs[i].text)
    ensures fs[i].TagSearch? ==>
      Count(fs[..i], IsTagSearch) < |Collect(fs, TagTerm)|
      && Collect(fs, TagTerm)[Count(fs[..i], IsTagSearch)] == Quote(fs[i].tag)
  {
    SearchTermsLength(fs[..i]);
    ContributionAt(fs, i, ContentTerm);
    ContributionAt(fs, i, TagTerm);
  }

  // ---------------------------------------------------------------------------
  // Shape of the conjuncts

  predicate StartsWith(s: string, prefix: string)
  {
    |prefix| <= |s| && s[..|prefix|] == prefix
  }

  /** A sub-expression contributed by a flag or date condition. */
  predicate IsFlagOrDateConjunct(s: string)
  {
    || s == "pinned == true"
    || s == "has_link == true"
    || s == "has_task_list == true"
    || s == "has_code == true"
    || StartsWith(s, AfterPrefix)
    || StartsWith(s, BeforePrefix)
  }

  lemma {:induction false} EmittedShape(fs: seq<Condition>)
    ensures forall k :: 0 <= k < |Collect(fs, Emit)| ==> IsFlagOrDateConjunct(Collect(fs, Emit)[k])
  {
    if fs != [] {
      var init := fs[..|fs| - 1];
      EmittedShape(init);
      var e := Emit(fs[|fs| - 1]);
      forall k | 0 <= k < |e| ensures IsFlagOrDateConjunct(e[k]) {
        if fs[|fs| - 1].DisplayTime? {
          var t := fs[|fs| - 1].start;
          assert (AfterPrefix + IntToString(t))[..|AfterPrefix|] == AfterPrefix;
          assert (BeforePrefix + IntToString(t + SecondsPerDay))[..|BeforePrefix|] == BeforePrefix;
        }
      }
    }
  }


  lemma SearchConjunctShape(opening: string, terms: seq<string>)
    requires |terms| > 0
    ensures |SearchConjunct(opening, terms)| == 1
    ensures StartsWith(SearchConjunct(opening, terms)[0], opening)
  {
    var s := SearchConjunct(opening, terms)[0];
    assert s == opening + (Join(terms, ", ") + "]");
  }

  lemma FirstCharOfPrefix(s: string, prefix: string)
    requires prefix != [] && StartsWith(s, prefix)
    ensures s[0] == prefix[0]
  {
    assert s[0] == s[..|prefix|][0];
  }

  /** The three kinds of conjunct are told apart by their first character. */
  lemma ConjunctKindsDisjoint(s: string)
    ensures !(StartsWith(s, ContentOpening) && IsFlagOrDateConjunct(s))
    ensures !(StartsWith(s, TagOpening) && IsFlagOrDateConjunct(s))
    ensures !(StartsWith(s, ContentOpening) && StartsWith(s, TagOpening))
  {
    if StartsWith(s, ContentOpening) {
      FirstCharOfPrefix(s, ContentOpening);
      assert s[0] == 'c';
    }
    if StartsWith(s, TagOpening) {
      FirstCharOfPrefix(s, TagOpening);
      assert s[0] == 't';
    }
    if StartsWith(s, AfterPrefix) {
      FirstCharOfPrefix(s, AfterPrefix);
      assert s[0] == 'd';
    }
    if StartsWith(s, BeforePrefix) {
      FirstCharOfPrefix(s, BeforePrefix);
      assert s[0] == 'd';
    }
  }

  /** Number of conjuncts: flags + 2 * dates + (content? 1 : 0) + (tag? 1 : 0). */
  lemma ConjunctCount(fs: seq<Condition>)
    ensures |Conjuncts(fs)| == Count(fs, IsFlag) + 2 * Count(fs, IsDate)
      + (if Count(fs, IsContentSearch) > 0 then 1 else 0)
      + (if Count(fs, IsTagSearch) > 0 then 1 else 0)
  {
    EmittedLength(fs);
    SearchTermsLength(fs);
  }

  /**
    Every flag and date sub-expression comes before both search conjuncts,
    and the `content_search` conjunct, when present, comes right after them
    and before the `tag_search` conjunct, which is last.
   */
  lemma ConjunctOrder(fs: seq<Condition>)
    ensures var cs := Conjuncts(fs);
      var n := |Collect(fs, Emit)|;
      && (forall k :: 0 <= k < n ==> IsFlagOrDateConjunct(cs[k]))
      && (forall k :: n <= k < |cs| ==> !IsFlagOrDateConjunct(cs[k]))
      && (Count(fs, IsContentSearch) > 0 ==> n < |cs| && StartsWith(cs[n], ContentOpening))
      && (Count(fs, IsTagSearch) > 0 ==> n < |cs| && StartsWith(cs[|cs| - 1], TagOpening))
  {
    EmittedShape(fs);
    SearchTermsLength(fs);
    var cs := Conjuncts(fs);
    var n := |Collect(fs, Emit)|;
    var content := Collect(fs, ContentTerm);
    var tag := Collect(fs, TagTerm);
    if |content| > 0 {
      SearchConjunctShape(ContentOpening, content);
      ConjunctKindsDisjoint(cs[n]);
    }
    if |tag| > 0 {
      SearchConjunctShape(TagOpening, tag);
      ConjunctKindsDisjoint(cs[|cs| - 1]);
    }
  }

  /** A `content_search` conjunct is present exactly when some condition is a content search. */
  lemma ContentConjunctPresentIff(fs: seq<Condition>)
    ensures (exists i :: 0 <= i < |fs| && fs[i].ContentSearch?)
        <==> (exists k :: 0 <= k < |Conjuncts(fs)| && StartsWith(Conjuncts(fs)[k], ContentOpening))
  {
    CountPositive(fs, IsContentSearch);
    ConjunctCount(fs);
    ConjunctOrder(fs);
    EmittedLength(fs);
    var cs := Conjuncts(fs);
    var n := |Collect(fs, Emit)|;
    if Count(fs, IsContentSearch) == 0 {
      forall k | 0 <= k < |cs| ensures !StartsWith(cs[k], ContentOpening) {
        ConjunctKindsDisjoint(cs[k]);
      }
    }
  }

  /** A `tag_search` conjunct is present exactly when some condition is a tag search. */
  lemma TagConjunctPresentIff(fs: seq<Condition>)
    ensures (exists i :: 0 <= i < |fs| && fs[i].TagSearch?)
        <==> (exists k :: 0 <= k < |Conjuncts(fs)| && StartsWith(Conjuncts(fs)[k], TagOpening))
  {
    CountPositive(fs, IsTagSearch);
    ConjunctCount(fs);
    ConjunctOrder(fs);
    EmittedLength(fs);
    var cs := Conjuncts(fs);
    var n := |Collect(fs, Emit)|;
    if Count(fs, IsTagSearch) == 0 {
      forall k | 0 <= k < |cs| ensures !StartsWith(cs[k], TagOpening) {
        ConjunctKindsDisjoint(cs[k]);
        if Count(fs, IsContentSearch) > 0 && k == n {
          SearchConjunctShape(ContentOpening, Collect(fs, ContentTerm));
        }
      }
    }
  }

  /** Read back as numbers, the two bounds a date condition emits are exactly one day apart. */
  lemma DateBoundsOneDayApart(t: int)
    ensures var after := Emit(DisplayTime(t))[0];
      var before := Emit(DisplayTime(t))[1];
      && after == AfterPrefix + IntToString(t)
      && before == BeforePrefix + IntToString(t + 86400)
      && ParseInt(before[|BeforePrefix|..]) - ParseInt(after[|AfterPrefix|..]) == 86400
  {
    assert SecondsPerDay == 86400;
    ParseAfterPrefix(AfterPrefix, t);
    ParseAfterPrefix(BeforePrefix, t + 86400);
  }

  /** The number spliced in after a prefix reads back as itself. */
  lemma ParseAfterPrefix(prefix: string, n: int)
    ensures ParseInt((prefix + IntToString(n))[|prefix|..]) == n
  {
    assert (prefix + IntToString(n))[|prefix|..] == IntToString(n);
    ParseIntToString(n);
  }

  /**
    Each `displayTime` condition starting at `t` yields two adjacent
    conjuncts, `display_time_after == t` then `display_time_before == t + 86400`,
    at the position given by what the conditions before it contributed.
   */
  lemma DateWindow(fs: seq<Condition>, i: int)
    requires 0 <= i < |fs| && fs[i].DisplayTime?
    ensures var k := |Collect(fs[..i], Emit)|;
      && k + 1 < |Conjuncts(fs)|
      && Conjuncts(fs)[k] == Emit(fs[i])[0]
      && Conjuncts(fs)[k + 1] == Emit(fs[i])[1]
  {
    ContributionAt(fs, i, Emit);
    var e := Collect(fs, Emit);
    var k := |Collect(fs[..i], Emit)|;
    assert |Emit(fs[i])| == 2;
    assert e[k] == Emit(fs[i])[0] && e[k + 1] == Emit(fs[i])[1];
  }

  /** The fixed literal of a flag condition. */
  function FlagLiteral(c: Condition): string
    requires IsFlag(c)
  {
    match c
    case Pinned => "pinned == true"
    case HasLink => "has_link == true"
    case HasTaskList => "has_task_list == true"
    case HasCode => "has_code == true"
  }

  /**
    Each flag condition yields exactly its fixed literal, at the position
    given by what the conditions before it contributed.
   */
  lemma FlagConjunct(fs: seq<Condition>, i: int)
    requires 0 <= i < |fs| && IsFlag(fs[i])
    ensures var k := |Collect(fs[..i], Emit)|;
      k < |Conjuncts(fs)| && Conjuncts(fs)[k] == FlagLiteral(fs[i])
  {
    ContributionAt(fs, i, Emit);
    var e := Collect(fs, Emit);
    var k := |Collect(fs[..i], Emit)|;
    assert e[k] == Emit(fs[i])[0];
  }

  /** No conjunct is empty. */
  lemma ConjunctsNonEmpty(fs: seq<Condition>)
    ensures forall k :: 0 <= k < |Conjuncts(fs)| ==> Conjuncts(fs)[k] != ""
  {
    EmittedShape(fs);
    var e := Collect(fs, Emit);
    var content := Collect(fs, ContentTerm);
    var tag := Collect(fs, TagTerm);
    var cs := Conjuncts(fs);
    if |content| > 0 {
      SearchConjunctShape(ContentOpening, content);
    }
    if |tag| > 0 {
      SearchConjunctShape(TagOpening, tag);
    }
    forall k | 0 <= k < |cs| ensures cs[k] != "" {
      if k < |e| {
        assert IsFlagOrDateConjunct(e[k]);
      }
    }
  }

  /** There are no conjuncts exactly when every condition has an unknown factor. */
  lemma NoConjunctsIff(fs: seq<Condition>)
    ensures Conjuncts(fs) == [] <==> forall i :: 0 <= i < |fs| ==> fs[i].Unknown?
  {
    ConjunctCount(fs);
    CountPositive(fs, IsFlag);
    CountPositive(fs, IsDate);
    CountPositive(fs, IsContentSearch);
    CountPositive(fs, IsTagSearch);
    if !forall i :: 0 <= i < |fs| ==> fs[i].Unknown? {
      var i :| 0 <= i < |fs| && !fs[i].Unknown?;
      assert IsFlag(fs[i]) || IsDate(fs[i]) || IsContentSearch(fs[i]) || IsTagSearch(fs[i]);
    }
  }

  /**
    The expression is empty exactly when no condition has a recognised
    factor: an empty list, or one of unknown factors only, compiles to "".
   */
  lemma CompileEmptyIff(fs: seq<Condition>)
    ensures Compile(fs) == "" <==> forall i :: 0 <= i < |fs| ==> fs[i].Unknown?
  {
    NoConjunctsIff(fs);
    ConjunctsNonEmpty(fs);
    JoinNonEmpty(Conjuncts(fs), " && ");
  }

  lemma SearchExampleConjuncts(fs: seq<Condition>)
    requires fs == [ContentSearch("a"), ContentSearch("b"), TagSearch("x")]
    ensures Conjuncts(fs) == [ContentOpening + Join([Quote("a"), Quote("b")], ", ") + "]",
                              TagOpening + Join([Quote("x")], ", ") + "]"]
  {
    var f1 := fs[..1];
    var f2 := fs[..2];
    assert f1[..0] == [] && f2[..1] == f1 && fs[..|fs| - 1] == f2;
    assert Collect(f1, ContentTerm) == [Quote("a")];
    assert Collect(f2, ContentTerm) == [Quote("a"), Quote("b")];
    assert Collect(fs, ContentTerm) == [Quote("a"), Quote("b")];
    assert Collect(f1, TagTerm) == [];
    assert Collect(f2, TagTerm) == [];
    assert Collect(fs, TagTerm) == [Quote("x")];
    assert Collect(f1, Emit) == [];
    assert Collect(f2, Emit) == [];
    assert Collect(fs, Emit) == [];
  }

  lemma SearchExampleText()
    ensures ContentOpening + Join([Quote("a"), Quote("b")], ", ") + "]" == "content_search == [\"a\", \"b\"]"
    ensures TagOpening + Join([Quote("x")], ", ") + "]" == "tag_search == [\"x\"]"
  {
    var qa, qb := Quote("a"), Quote("b");
    assert qa == "\"a\"" && qb == "\"b\"";
    assert Join([qa, qb], ", ") == qa + ", " + Join([qb], ", ");
  }

  /** Two content searches and a tag search, in the order the feed shows them. */
  lemma SearchExample()
    ensures Compile([ContentSearch("a"), ContentSearch("b"), TagSearch("x")])
         == "content_search == [\"a\", \"b\"] && tag_search == [\"x\"]"
  {
    var fs := [ContentSearch("a"), ContentSearch("b"), TagSearch("x")];
    SearchExampleConjuncts(fs);
    SearchExampleText();
    var content := "content_search == [\"a\", \"b\"]";
    var tag := "tag_search == [\"x\"]";
    JoinPair(content, tag, " && ");
    SearchExampleJoined();
  }

  /** The example's two conjuncts joined, spelled out as one literal. */
  lemma SearchExampleJoined()
    ensures "content_search == [\"a\", \"b\"]" + " && " + "tag_search == [\"x\"]"
         == "content_search == [\"a\", \"b\"] && tag_search == [\"x\"]"
  {
  }
}
