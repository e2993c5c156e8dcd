/** The AND/OR match-engine combinators (src/engine/andor.rs). */
module AndOr {
  import opened Common
  import opened Vecs

  /** A match engine: a primitive engine (exact, fuzzy, regex ...), known by an id, or a
      combinator over an ordered list of sub-engines. */
  datatype Engine = Prim(id: nat) | And(engines: seq<Engine>) | Or(engines: seq<Engine>)

  /** The collaborators the combinators call and this model does not contain. */
  datatype Env<!T> = Env(
    /** `match_item` of primitive engine `id` on an item. */
    primMatch: (nat, T) -> Option<MatchResult>,
    /** `SkimItem::text`. */
    text: T -> string,
    /** `MatchResult::range_char_indices` of a `ByteRange(start, end)` over a text. */
    byteRangeChars: (string, nat, nat) -> seq<nat>,
    /** `Display` of primitive engine `id`. */
    primName: nat -> string)

  //------------------------------------------------------------------------------
  // Matching

  /** What engine `e` answers for `item`. */
  function Match<T>(env: Env<T>, e: Engine, item: T): Option<MatchResult>
    decreases e, 1
  {
    match e
    case Prim(id) => env.primMatch(id, item)
    case Or(_) => FirstMatch(env, e, 0, item)
    case And(_) =>
      match AllMatch(env, e, 0, item)
      case None => None
      case Some(results) =>
        if |results| == 0 then None else Some(Merge(env, results, env.text(item)))
  }

  /** `OrEngine::match_item` from sub-engine i on: `find_map` over the list. */
  function FirstMatch<T>(env: Env<T>, e: Engine, i: nat, item: T): Option<MatchResult>
    requires e.Or? && i <= |e.engines|
    decreases e, 0, |e.engines| - i
  {
    if i == |e.engines| then None
    else match Match(env, e.engines[i], item)
      case Some(r) => Some(r)
      case None => FirstMatch(env, e, i + 1, item)
  }

  /** The results of sub-engines i.. of an And engine, or None at the first one that fails. */
  function AllMatch<T>(env: Env<T>, e: Engine, i: nat, item: T): Option<seq<MatchResult>>
    requires e.And? && i <= |e.engines|
    decreases e, 0, |e.engines| - i
  {
    if i == |e.engines| then Some([])
    else match Match(env, e.engines[i], item)
      case None => None
      case Some(r) =>
        match AllMatch(env, e, i + 1, item)
        case None => None
        case Some(rs) => Some([r] + rs)
  }

  /** The character indices one result covers in `text`. */
  function RangeChars<T>(env: Env<T>, r: MatchResult, text: string): seq<nat>
  {
    match r.matchedRange
    case ByteRange(start, end) => env.byteRangeChars(text, start, end)
    case Chars(indices) => indices
  }

  /** The indices of all results, in order, as the merge loop gathers them. */
  function Collected<T>(env: Env<T>, results: seq<MatchResult>, text: string): seq<nat>
  {
    if results == [] then []
    else Collected(env, results[..|results| - 1], text) + RangeChars(env, results[|results| - 1], text)
  }

  /** The merged result of an And engine: the first rank, and the sorted, deduplicated indices. */
  function Merge<T>(env: Env<T>, results: seq<MatchResult>, text: string): MatchResult
    requires |results| > 0
  {
    MatchResult(results[0].rank, Chars(Dedup(SortNat(Collected(env, results, text)))))
  }

  lemma {:induction false} CollectedElements<T>(env: Env<T>, results: seq<MatchResult>, text: string)
    ensures forall x :: x in Collected(env, results, text) <==>
      exists j :: 0 <= j < |results| && x in RangeChars(env, results[j], text)
  {
    if results != [] {
      var init := results[..|results| - 1];
      CollectedElements(env, init, text);
      forall x | x in Collected(env, results, text)
        ensures exists j :: 0 <= j < |results| && x in RangeChars(env, results[j], text)
      {
        if x !in RangeChars(env, results[|results| - 1], text) {
          assert x in Collected(env, init, text);
          var j :| 0 <= j < |init| && x in RangeChars(env, init[j], text);
          assert results[j] == init[j];
        }
      }
      forall x | exists j :: 0 <= j < |results| && x in RangeChars(env, results[j], text)
        ensures x in Collected(env, results, text)
      {
        var j :| 0 <= j < |results| && x in RangeChars(env, results[j], text);
        if j < |init| {
          assert results[j] == init[j];
          assert x in Collected(env, init, text);
        }
      }
    }
  }

  /** The merged result keeps the first rank, is always the Chars form, strictly ascending,
      and holds exactly the indices of all sub-results. */
  lemma MergeProperties<T>(env: Env<T>, results: seq<MatchResult>, text: string)
    requires |results| > 0
    ensures var m := Merge(env, results, text);
      && m.rank == results[0].rank
      && m.matchedRange.Chars?
      && StrictlySorted(m.matchedRange.indices)
      && forall x :: x in m.matchedRange.indices <==>
           exists j :: 0 <= j < |results| && x in RangeChars(env, results[j], text)
  {
    var c := Collected(env, results, text);
    var s := SortNat(c);
    SortNatProperties(c);
    DedupOfSorted(s);
    DedupProperties(s);
    CollectedElements(env, results, text);
    var d := Dedup(s);
    forall x
      ensures x in d <==> x in c
    {
      calc {
        x in d;
        x in s;
        x in multiset(s);
        x in multiset(c);
        x in c;
      }
    }
  }

  /** `AndEngine::merge_matched_items`: gathers every sub-result's indices (converting byte
      ranges), then sorts and deduplicates them. */
  method MergeMatchedItems<T>(env: Env<T>, items: seq<MatchResult>, text: string) returns (r: MatchResult)
    requires |items| > 0
    ensures r == Merge(env, items, text)
  {
    var rank := items[0].rank;
    var ranges: seq<nat> := [];
    for i := 0 to |items|
      invariant ranges == Collected(env, items[..i], text)
    {
      assert items[..i + 1][..i] == items[..i];
      match items[i].matchedRange
      case ByteRange(start, end) =>
        ranges := ranges + env.byteRangeChars(text, start, end);
      case Chars(indices) =>
        ranges := ranges + indices;
    }
    assert items[..|items|] == items;
    ranges := SortNat(ranges);
    ranges := DedupVec(ranges);
    r := MatchResult(rank, Chars(ranges));
  }

  function Prepend(xs: seq<MatchResult>, o: Option<seq<MatchResult>>): Option<seq<MatchResult>>
  {
    match o
    case None => None
    case Some(ys) => Some(xs + ys)
  }

  /** `match_item` of any engine, dispatched on its kind. */
  method MatchItem<T>(env: Env<T>, e: Engine, item: T) returns (r: Option<MatchResult>)
    ensures r == Match(env, e, item)
    decreases e, 1
  {
    match e
    case Prim(id) =>
      r := env.primMatch(id, item);
    case Or(_) =>
      r := FirstMatch(env, e, 0, item);
    case And(_) =>
      ghost var evaluated;
      r, evaluated := AndMatchItem(env, e, item);
  }

  /** `AndEngine::match_item`: evaluates the sub-engines in order and returns None at the
      first that fails, without evaluating the later ones; None also when there are none. */
  method AndMatchItem<T>(env: Env<T>, e: Engine, item: T) returns (r: Option<MatchResult>, ghost evaluated: nat)
    requires e.And?
    ensures r == Match(env, e, item)
    ensures evaluated <= |e.engines|
    ensures forall k :: 0 <= k < evaluated - 1 ==> Match(env, e.engines[k], item).Some?
    ensures evaluated < |e.engines| ==> 0 < evaluated && Match(env, e.engines[evaluated - 1], item).None?
    ensures r.Some? ==> evaluated == |e.engines|
    decreases e, 0
  {
    var results: seq<MatchResult> := [];
    var i := 0;
    evaluated := 0;
    match AllMatch(env, e, 0, item) {
      case None =>
      case Some(ys) => assert [] + ys == ys;
    }
    while i < |e.engines|
      invariant 0 <= i <= |e.engines| && evaluated == i
      invariant forall k :: 0 <= k < i ==> Match(env, e.engines[k], item).Some?
      invariant AllMatch(env, e, 0, item) == Prepend(results, AllMatch(env, e, i, item))
    {
      var result := MatchItem(env, e.engines[i], item);
      evaluated := evaluated + 1;
      if result.None? {
        return None, evaluated;
      }
      match AllMatch(env, e, i + 1, item) {
        case None =>
        case Some(ys) => assert results + ([result.value] + ys) == (results + [result.value]) + ys;
      }
      results := results + [result.value];
      i := i + 1;
    }
    assert results + [] == results;
    if |results| == 0 {
      r := None;
    } else {
      var merged := MergeMatchedItems(env, results, env.text(item));
      r := Some(merged);
    }
  }

  //------------------------------------------------------------------------------
  // Properties of the combinators

  lemma {:induction false} FirstMatchSpec<T>(env: Env<T>, e: Engine, i: nat, item: T)
    requires e.Or? && i <= |e.engines|
    ensures FirstMatch(env, e, i, item).None? <==>
      forall j :: i <= j < |e.engines| ==> Match(env, e.engines[j], item).None?
    ensures forall j :: (i <= j < |e.engines| && Match(env, e.engines[j], item).Some? &&
                         (forall k :: i <= k < j ==> Match(env, e.engines[k], item).None?)) ==>
      FirstMatch(env, e, i, item) == Match(env, e.engines[j], item)
    decreases |e.engines| - i
  {
    if i < |e.engines| {
      FirstMatchSpec(env, e, i + 1, item);
    }
  }

  /** `OrEngine::match_item` answers what the first sub-engine, in list order, that matches
      answers, and None when no sub-engine matches (in particular when there are none). */
  lemma OrFirstSuccess<T>(env: Env<T>, es: seq<Engine>, item: T)
    ensures Match(env, Or(es), item).None? <==> forall j :: 0 <= j < |es| ==> Match(env, es[j], item).None?
    ensures forall j :: (0 <= j < |es| && Match(env, es[j], item).Some? &&
                         (forall k :: 0 <= k < j ==> Match(env, es[k], item).None?)) ==>
      Match(env, Or(es), item) == Match(env, es[j], item)
  {
    FirstMatchSpec(env, Or(es), 0, item);
  }

  lemma {:induction false} AllMatchSpec<T>(env: Env<T>, e: Engine, i: nat, item: T)
    requires e.And? && i <= |e.engines|
    ensures AllMatch(env, e, i, item).Some? <==>
      forall j :: i <= j < |e.engines| ==> Match(env, e.engines[j], item).Some?
    ensures AllMatch(env, e, i, item).Some? ==>
      var rs := AllMatch(env, e, i, item).value;
      |rs| == |e.engines| - i &&
      forall k :: 0 <= k < |rs| ==> Some(rs[k]) == Match(env, e.engines[i + k], item)
    decreases |e.engines| - i
  {
    if i < |e.engines| {
      AllMatchSpec(env, e, i + 1, item);
      if AllMatch(env, e, i, item).Some? {
        var rs := AllMatch(env, e, i, item).value;
        forall k | 0 <= k < |rs|
          ensures Some(rs[k]) == Match(env, e.engines[i + k], item)
        {
          if k > 0 {
            assert rs[k] == AllMatch(env, e, i + 1, item).value[k - 1];
          }
        }
      }
    }
  }

  /** `AndEngine::match_item` answers None exactly when it has no sub-engines or one of them
      answers None. */
  lemma AndFailure<T>(env: Env<T>, es: seq<Engine>, item: T)
    ensures Match(env, And(es), item).None? <==>
      |es| == 0 || exists j :: 0 <= j < |es| && Match(env, es[j], item).None?
  {
    AllMatchSpec(env, And(es), 0, item);
  }

  /** Once sub-engine j fails, the engines after it cannot change the answer. */
  lemma AndShortCircuit<T>(env: Env<T>, es: seq<Engine>, j: nat, rest: seq<Engine>, item: T)
    requires j < |es| && Match(env, es[j], item).None?
    ensures Match(env, And(es[..j + 1] + rest), item).None?
  {
    var es' := es[..j + 1] + rest;
    AllMatchSpec(env, And(es'), 0, item);
    assert es'[j] == es[j];
  }

  /** On success every sub-engine matched, the first one's rank is kept, and the range is the
      Chars form holding, strictly ascending, exactly the union of the sub-results' character
      indices (byte ranges converted through the item's text). */
  lemma AndSuccess<T>(env: Env<T>, es: seq<Engine>, item: T)
    requires Match(env, And(es), item).Some?
    ensures |es| > 0 && forall j :: 0 <= j < |es| ==> Match(env, es[j], item).Some?
    ensures var m := Match(env, And(es), item).value;
      && m.rank == Match(env, es[0], item).value.rank
      && m.matchedRange.Chars?
      && StrictlySorted(m.matchedRange.indices)
      && (forall x :: x in m.matchedRange.indices ==>
            exists j :: 0 <= j < |es| && x in RangeChars(env, Match(env, es[j], item).value, env.text(item)))
      && (forall j, x :: 0 <= j < |es| && x in RangeChars(env, Match(env, es[j], item).value, env.text(item)) ==>
            x in m.matchedRange.indices)
  {
    var t := env.text(item);
    var rs := AndResults(env, es, item);
    MergeProperties(env, rs, t);
    var m := Merge(env, rs, t);
    forall x | x in m.matchedRange.indices
      ensures exists j :: 0 <= j < |es| && x in RangeChars(env, Match(env, es[j], item).value, t)
    {
      var j :| 0 <= j < |rs| && x in RangeChars(env, rs[j], t);
      assert rs[j] == Match(env, es[j], item).value;
    }
    forall j, x | 0 <= j < |es| && x in RangeChars(env, Match(env, es[j], item).value, t)
      ensures x in m.matchedRange.indices
    {
      assert rs[j] == Match(env, es[j], item).value;
    }
  }

  /** A successful And engine's answer is the merge of its sub-engines' answers, in order. */
  lemma AndResults<T>(env: Env<T>, es: seq<Engine>, item: T) returns (rs: seq<MatchResult>)
    requires Match(env, And(es), item).Some?
    ensures |rs| == |es| > 0
    ensures forall k :: 0 <= k < |es| ==> Match(env, es[k], item).Some? && rs[k] == Match(env, es[k], item).value
    ensures Match(env, And(es), item) == Some(Merge(env, rs, env.text(item)))
  {
    var e := And(es);
    AllMatchSpec(env, e, 0, item);
    rs := AllMatch(env, e, 0, item).value;
    forall k | 0 <= k < |es|
      ensures Match(env, es[k], item) == Some(rs[k])
    {
      assert e.engines[0 + k] == es[k];
    }
  }

  //------------------------------------------------------------------------------
  // Building and describing combinators

  /** `AndEngine::builder` and `OrEngine::builder`: no sub-engines yet. */
  function AndBuilder(): Engine { And([]) }
  function OrBuilder(): Engine { Or([]) }

  /** `engines(..)`: appends sub-engines to a combinator's list. */
  function WithEngines(e: Engine, more: seq<Engine>): Engine
    requires !e.Prim?
  {
    if e.And? then And(e.engines + more) else Or(e.engines + more)
  }

  /** `Display` of an engine. */
  function Fmt<T>(env: Env<T>, e: Engine): string
    decreases e, 1
  {
    match e
    case Prim(id) => env.primName(id)
    case And(_) => "(And: " + Join(", ", FmtAll(env, e, 0)) + ")"
    case Or(_) => "(Or: " + Join(", ", FmtAll(env, e, 0)) + ")"
  }

  function FmtAll<T>(env: Env<T>, e: Engine, i: nat): seq<string>
    requires !e.Prim? && i <= |e.engines|
    decreases e, 0, |e.engines| - i
  {
    if i == |e.engines| then [] else [Fmt(env, e.engines[i])] + FmtAll(env, e, i + 1)
  }

  /** The descriptions of a list of engines, in order. */
  function Names<T>(env: Env<T>, es: seq<Engine>): seq<string>
  {
    seq(|es|, k requires 0 <= k < |es| => Fmt(env, es[k]))
  }

  lemma {:induction false} FmtAllNames<T>(env: Env<T>, e: Engine, i: nat)
    requires !e.Prim? && i <= |e.engines|
    ensures FmtAll(env, e, i) == Names(env, e.engines[i..])
    decreases |e.engines| - i
  {
    if i < |e.engines| {
      FmtAllNames(env, e, i + 1);
      assert e.engines[i..] == [e.engines[i]] + e.engines[i + 1..];
    }
  }

  /** A combinator is described as "(And: " or "(Or: ", its sub-engines' descriptions joined
      with ", ", and ")". */
  lemma FmtShape<T>(env: Env<T>, e: Engine)
    requires !e.Prim?
    ensures Fmt(env, e) == (if e.And? then "(And: " else "(Or: ") + Join(", ", Names(env, e.engines)) + ")"
  {
    FmtAllNames(env, e, 0);
    assert e.engines[0..] == e.engines;
  }

  /** Two `engines(..)` calls append in order: the combinator holds a ++ b and its description
      lists a's descriptions, then b's. */
  lemma EnginesAppendInOrder<T>(env: Env<T>, a: seq<Engine>, b: seq<Engine>)
    ensures WithEngines(WithEngines(AndBuilder(), a), b) == And(a + b)
    ensures WithEngines(WithEngines(OrBuilder(), a), b) == Or(a + b)
    ensures |a| > 0 && |b| > 0 ==>
      Fmt(env, And(a + b)) == "(And: " + Join(", ", Names(env, a)) + ", " + Join(", ", Names(env, b)) + ")"
    ensures |a| > 0 && |b| > 0 ==>
      Fmt(env, Or(a + b)) == "(Or: " + Join(", ", Names(env, a)) + ", " + Join(", ", Names(env, b)) + ")"
  {
    FmtShape(env, And(a + b));
    FmtShape(env, Or(a + b));
    assert Names(env, a + b) == Names(env, a) + Names(env, b);
    if |a| > 0 && |b| > 0 {
      JoinAppend(", ", Names(env, a), Names(env, b));
    }
  }
}
