/** The standard-library vector operations the core relies on: `Vec::dedup`, `slice::sort`
    on indices, and `join` on strings. */
module Vecs {

  /** What `Vec::dedup` leaves of `s`: every run of equal neighbours collapsed to one element.
      Defined from the back so that it follows a left-to-right scan. */
  function Dedup<T(==)>(s: seq<T>): seq<T>
  {
    if |s| <= 1 then s
    else if s[|s| - 1] == s[|s| - 2] then Dedup(s[..|s| - 1])
    else Dedup(s[..|s| - 1]) + [s[|s| - 1]]
  }

  predicate NoAdjacentDuplicates<T(==)>(s: seq<T>)
  {
    forall i :: 0 <= i < |s| - 1 ==> s[i] != s[i + 1]
  }

  /** The last element survives deduplication. */
  lemma {:induction false} DedupLast<T>(s: seq<T>)
    requires |s| > 0
    ensures |Dedup(s)| > 0 && Dedup(s)[|Dedup(s)| - 1] == s[|s| - 1]
  {
    if |s| > 1 && s[|s| - 1] == s[|s| - 2] {
      DedupLast(s[..|s| - 1]);
    }
  }

  /** Deduplication never lengthens, keeps exactly the same elements, and leaves no two
      equal neighbours. */
  lemma {:induction false} DedupProperties<T>(s: seq<T>)
    ensures |Dedup(s)| <= |s|
    ensures forall x :: x in Dedup(s) <==> x in s
    ensures NoAdjacentDuplicates(Dedup(s))
  {
    if |s| > 1 {
      var init := s[..|s| - 1];
      DedupProperties(init);
      DedupLast(init);
      assert s == init + [s[|s| - 1]];
      assert forall x :: x in s <==> x in init || x == s[|s| - 1];
    }
  }

  /** On a sequence that has no equal neighbours deduplication changes nothing. */
  lemma {:induction false} DedupFixedPoint<T>(s: seq<T>)
    requires NoAdjacentDuplicates(s)
    ensures Dedup(s) == s
  {
    if |s| > 1 {
      var init := s[..|s| - 1];
      DedupFixedPoint(init);
      assert s == init + [s[|s| - 1]];
    }
  }

  /** Position i starts a run of equal neighbours: it is the first position, or its element
      differs from the one to its left. */
  predicate IsRunHead<T(==)>(s: seq<T>, i: nat)
    requires i < |s|
  {
    i == 0 || s[i] != s[i - 1]
  }

  /** The positions of `s` that start a run, in ascending order. */
  function RunHeads<T(==)>(s: seq<T>): seq<nat>
  {
    if |s| == 0 then []
    else RunHeads(s[..|s| - 1]) + (if IsRunHead(s, |s| - 1) then [|s| - 1] else [])
  }

  /** `d` is the subsequence of `s` at the ascending positions `idx`, and `idx` holds exactly
      the positions that start a run. */
  predicate SelectsRunHeads<T(==)>(s: seq<T>, d: seq<T>, idx: seq<nat>)
  {
    && |idx| == |d|
    && (forall k :: 0 <= k < |idx| ==> idx[k] < |s| && d[k] == s[idx[k]])
    && (forall k, l :: 0 <= k < l < |idx| ==> idx[k] < idx[l])
    && (forall i: nat :: i < |s| ==> (i in idx <==> IsRunHead(s, i)))
  }

  /** Deduplication keeps, in their original order, exactly the elements that differ from
      their left neighbour in the input (and the first element), and drops every other one. */
  lemma {:induction false} DedupSelectsRunHeads<T>(s: seq<T>)
    ensures SelectsRunHeads(s, Dedup(s), RunHeads(s))
  {
    if |s| > 0 {
      var init := s[..|s| - 1];
      DedupSelectsRunHeads(init);
      var last := |s| - 1;
      var idx := RunHeads(init);
      assert RunHeads(s) == idx + (if IsRunHead(s, last) then [last] else []);
      assert forall k :: 0 <= k < |idx| ==> idx[k] < last;
      forall i: nat | i < last
        ensures IsRunHead(s, i) == IsRunHead(init, i)
      {
        assert init[i] == s[i];
        if i > 0 {
          assert init[i - 1] == s[i - 1];
        }
      }
    }
  }

  /** `Vec::dedup`: keeps an element only when it differs from the last element kept. */
  method DedupVec<T(==)>(v: seq<T>) returns (r: seq<T>)
    ensures r == Dedup(v)
  {
    if |v| == 0 {
      return [];
    }
    r := [v[0]];
    var read := 1;
    while read < |v|
      invariant 1 <= read <= |v|
      invariant r == Dedup(v[..read])
    {
      DedupLast(v[..read]);
      assert v[..read + 1][..read] == v[..read];
      if v[read] != r[|r| - 1] {
        r := r + [v[read]];
      }
      read := read + 1;
    }
    assert v[..|v|] == v;
  }

  predicate Sorted(s: seq<int>)
  {
    forall i, j :: 0 <= i < j < |s| ==> s[i] <= s[j]
  }

  predicate StrictlySorted(s: seq<int>)
  {
    forall i, j :: 0 <= i < j < |s| ==> s[i] < s[j]
  }

  function Insert(x: nat, s: seq<nat>): seq<nat>
  {
    if s == [] || x <= s[0] then [x] + s else [s[0]] + Insert(x, s[1..])
  }

  /** `slice::sort` on indices: the ascending arrangement of `s` (an insertion sort). */
  function SortNat(s: seq<nat>): seq<nat>
  {
    if s == [] then [] else Insert(s[0], SortNat(s[1..]))
  }

  lemma {:induction false} InsertElements(x: nat, s: seq<nat>)
    ensures multiset(Insert(x, s)) == multiset(s) + multiset{x}
    ensures forall y :: y in Insert(x, s) <==> y == x || y in s
  {
    if s != [] && x > s[0] {
      InsertElements(x, s[1..]);
      assert s == [s[0]] + s[1..];
    }
  }

  lemma {:induction false} InsertSorted(x: nat, s: seq<nat>)
    requires Sorted(s)
    ensures Sorted(Insert(x, s))
  {
    if s != [] && x > s[0] {
      var tail := s[1..];
      InsertSorted(x, tail);
      InsertElements(x, tail);
      var t := Insert(x, tail);
      assert forall i :: 0 <= i < |t| ==> t[i] in t;
      assert forall i :: 0 <= i < |t| ==> s[0] <= t[i];
      assert Insert(x, s) == [s[0]] + t;
    }
  }

  /** Sorting yields an ascending permutation of its input. */
  lemma {:induction false} SortNatProperties(s: seq<nat>)
    ensures Sorted(SortNat(s))
    ensures multiset(SortNat(s)) == multiset(s)
  {
    if s != [] {
      SortNatProperties(s[1..]);
      InsertSorted(s[0], SortNat(s[1..]));
      InsertElements(s[0], SortNat(s[1..]));
      assert s == [s[0]] + s[1..];
    }
  }

  /** Deduplicating an ascending sequence leaves it strictly ascending. */
  lemma {:induction false} DedupOfSorted(s: seq<nat>)
    requires Sorted(s)
    ensures StrictlySorted(Dedup(s))
  {
    if |s| > 1 {
      var init := s[..|s| - 1];
      DedupOfSorted(init);
      DedupLast(init);
      DedupProperties(init);
      var d := Dedup(init);
      if s[|s| - 1] != s[|s| - 2] {
        forall i | 0 <= i < |d|
          ensures d[i] < s[|s| - 1]
        {
          assert d[i] in init;
        }
      }
    }
  }

  /** `[String]::join(sep)`. */
  function Join(sep: string, parts: seq<string>): string
  {
    if |parts| == 0 then ""
    else if |parts| == 1 then parts[0]
    else parts[0] + sep + Join(sep, parts[1..])
  }

  /** Joining two non-empty lists puts one separator between their joins. */
  lemma {:induction false} JoinAppend(sep: string, a: seq<string>, b: seq<string>)
    requires |a| > 0 && |b| > 0
    ensures Join(sep, a + b) == Join(sep, a) + sep + Join(sep, b)
  {
    if |a| > 1 {
      JoinAppend(sep, a[1..], b);
      assert (a + b)[1..] == a[1..] + b;
    } else {
      assert (a + b)[1..] == b;
    }
  }
}
