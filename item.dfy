/** The rank model, matched items and the item pool (src/item.rs). */
module Item {
  import opened Common
  import opened Vecs

  //------------------------------------------------------------------------------
  // Rank criteria and the rank builder

  datatype RankCriteria = Score | Begin | End | NegScore | NegBegin | NegEnd | Length | NegLength

  /** An ordered list of criteria; slot i of a rank holds the value of criterion i. */
  datatype RankBuilder = RankBuilder(criterion: seq<RankCriteria>)

  /** `RankBuilder::default`: score, then begin, then end. */
  function DefaultRankBuilder(): RankBuilder
  {
    RankBuilder([Score, Begin, End])
  }

  /** The list with `Score` put in front when neither score criterion is present. */
  function WithScore(criterion: seq<RankCriteria>): seq<RankCriteria>
  {
    if Score !in criterion && NegScore !in criterion then [Score] + criterion else criterion
  }

  /** The criteria list `RankBuilder::new` keeps. */
  function NormalizedCriteria(criterion: seq<RankCriteria>): seq<RankCriteria>
  {
    Dedup(WithScore(criterion))
  }

  lemma {:induction false} DedupFirst<T>(s: seq<T>)
    requires |s| > 0
    ensures |Dedup(s)| > 0 && Dedup(s)[0] == s[0]
  {
    if |s| > 1 {
      DedupFirst(s[..|s| - 1]);
    }
  }

  /** What normalization promises: a score criterion is always present, `Score` leads when
      the input had neither, nothing else is added, the list grows by at most one, and the
      result is the input (with `Score` in front when it had no score criterion) in its own
      order, minus exactly the criteria equal to their left neighbour. */
  lemma NormalizedCriteriaProperties(criterion: seq<RankCriteria>)
    ensures var n := NormalizedCriteria(criterion);
      && WithScore(criterion) == (if Score !in criterion && NegScore !in criterion then [Score] else []) + criterion
      && SelectsRunHeads(WithScore(criterion), n, RunHeads(WithScore(criterion)))
      && (Score in n || NegScore in n)
      && (Score !in criterion && NegScore !in criterion ==> |n| > 0 && n[0] == Score)
      && NoAdjacentDuplicates(n)
      && |n| <= |criterion| + 1
      && (forall c :: c in n <==> c in criterion || (c == Score && NegScore !in criterion))
  {
    var w := WithScore(criterion);
    DedupProperties(w);
    DedupSelectsRunHeads(w);
    assert Score in w || NegScore in w;
    if Score !in criterion && NegScore !in criterion {
      DedupFirst(w);
    }
  }

  /** Normalization keeps both score criteria when both are given, and keeps duplicates that
      are not neighbours. */
  lemma NormalizationIsShallow()
    ensures NormalizedCriteria([Score, NegScore]) == [Score, NegScore]
    ensures NormalizedCriteria([Score, Begin, Score]) == [Score, Begin, Score]
  {
    DedupFixedPoint([Score, NegScore]);
    DedupFixedPoint([Score, Begin, Score]);
  }

  /** The default builder is already in normal form. */
  lemma DefaultRankBuilderIsNormalized()
    ensures NormalizedCriteria(DefaultRankBuilder().criterion) == DefaultRankBuilder().criterion
  {
    DedupFixedPoint(DefaultRankBuilder().criterion);
  }

  /** `RankBuilder::new`: insert `Score` at index 0 when no score criterion is present, then
      `Vec::dedup` in place. */
  method NewRankBuilder(criterion: seq<RankCriteria>) returns (b: RankBuilder)
    ensures b.criterion == NormalizedCriteria(criterion)
  {
    var c := criterion;
    if Score !in c && NegScore !in c {
      c := [Score] + c;
    }
    c := DedupVec(c);
    b := RankBuilder(c);
  }

  /** The signed value a criterion contributes to a rank. */
  function CriterionValue(c: RankCriteria, score: int, begin: int, end: int, length: int): int
  {
    match c
    case Score => -score
    case Begin => begin
    case End => end
    case NegScore => score
    case NegBegin => -begin
    case NegEnd => -end
    case Length => length
    case NegLength => -length
  }

  /** `RankBuilder::build_rank`: fills a zeroed four-slot array from the first four criteria. */
  method BuildRank(b: RankBuilder, score: int, begin: nat, end: nat, length: nat) returns (rank: Rank)
    ensures forall i :: 0 <= i < 4 && i < |b.criterion| ==>
      rank[i] == CriterionValue(b.criterion[i], score, begin, end, length)
    ensures forall i :: |b.criterion| <= i < 4 ==> rank[i] == 0
  {
    var a := new int[4](_ => 0);
    var index := 0;
    while index < 4 && index < |b.criterion|
      invariant 0 <= index <= 4 && index <= |b.criterion|
      invariant forall i :: 0 <= i < index ==> a[i] == CriterionValue(b.criterion[i], score, begin, end, length)
      invariant forall i :: index <= i < 4 ==> a[i] == 0
    {
      a[index] := CriterionValue(b.criterion[index], score, begin, end, length);
      index := index + 1;
    }
    rank := a[..];
  }

  /** Score first and length second: a score of 5 and a length of 10 give [-5, 10, 0, 0]. */
  method BuildRankExample() returns (rank: Rank)
    ensures rank == [-5, 10, 0, 0]
  {
    var b := NewRankBuilder([Score, Length]);
    DedupFixedPoint([Score, Length]);
    rank := BuildRank(b, 5, 0, 3, 10);
  }

  //------------------------------------------------------------------------------
  // Rank order and matched items

  /** Lexicographic comparison of equally long key lists, as Rust compares arrays. */
  function CompareKeys(a: seq<int>, b: seq<int>): Ordering
    requires |a| == |b|
  {
    if |a| == 0 then Equal
    else if a[0] < b[0] then Less
    else if a[0] > b[0] then Greater
    else CompareKeys(a[1..], b[1..])
  }

  function RankCmp(a: Rank, b: Rank): Ordering
  {
    CompareKeys(a, b)
  }

  /** Comparison answers Equal exactly on equal key lists. */
  lemma {:induction false} CompareKeysEqual(a: seq<int>, b: seq<int>)
    requires |a| == |b|
    ensures CompareKeys(a, b) == Equal <==> a == b
  {
    if |a| > 0 {
      CompareKeysEqual(a[1..], b[1..]);
      if a[0] == b[0] && a[1..] == b[1..] {
        assert a == [a[0]] + a[1..] && b == [b[0]] + b[1..];
      }
    }
  }

  /** The first slot where the lists differ decides. */
  lemma {:induction false} CompareKeysFirstDifference(a: seq<int>, b: seq<int>)
    requires |a| == |b|
    ensures CompareKeys(a, b) == Less <==>
      exists k :: 0 <= k < |a| && a[..k] == b[..k] && a[k] < b[k]
  {
    if |a| > 0 {
      CompareKeysFirstDifference(a[1..], b[1..]);
      if CompareKeys(a, b) == Less {
        if a[0] < b[0] {
          assert a[..0] == b[..0];
        } else {
          var k :| 0 <= k < |a| - 1 && a[1..][..k] == b[1..][..k] && a[1..][k] < b[1..][k];
          assert a[..k + 1] == [a[0]] + a[1..][..k];
          assert b[..k + 1] == [b[0]] + b[1..][..k];
        }
      }
      if exists k :: 0 <= k < |a| && a[..k] == b[..k] && a[k] < b[k] {
        var k :| 0 <= k < |a| && a[..k] == b[..k] && a[k] < b[k];
        if k > 0 {
          assert a[0] == a[..k][0] && b[0] == b[..k][0];
          assert a[1..][..k - 1] == a[..k][1..] && b[1..][..k - 1] == b[..k][1..];
        }
      }
    }
  }

  /** Swapping the arguments swaps Less and Greater. */
  lemma {:induction false} CompareKeysAntisymmetric(a: seq<int>, b: seq<int>)
    requires |a| == |b|
    ensures CompareKeys(a, b) == Less <==> CompareKeys(b, a) == Greater
  {
    if |a| > 0 {
      CompareKeysAntisymmetric(a[1..], b[1..]);
    }
  }

  lemma {:induction false} CompareKeysTransitive(a: seq<int>, b: seq<int>, c: seq<int>)
    requires |a| == |b| == |c|
    requires CompareKeys(a, b) == Less && CompareKeys(b, c) == Less
    ensures CompareKeys(a, c) == Less
  {
    if a[0] == b[0] && b[0] == c[0] {
      CompareKeysTransitive(a[1..], b[1..], c[1..]);
    }
  }

  /** A match of one item: the item (held weakly by the source), its rank, what matched, and
      its position in the stream. */
  datatype MatchedItem<T> = MatchedItem(item: T, rank: Rank, matchedRange: Option<MatchRange>, itemIdx: nat)

  /** `PartialEq for MatchedItem`. */
  predicate MatchedItemEq<T>(a: MatchedItem<T>, b: MatchedItem<T>)
  {
    a.rank == b.rank
  }

  /** `Ord for MatchedItem`. */
  function MatchedItemCmp<T>(a: MatchedItem<T>, b: MatchedItem<T>): Ordering
  {
    RankCmp(a.rank, b.rank)
  }

  /** Equality and order of matched items look at the rank alone, lexicographically, and agree
      with each other. */
  lemma MatchedItemOrderIsRankOrder<T>(a: MatchedItem<T>, b: MatchedItem<T>, a': MatchedItem<T>, b': MatchedItem<T>)
    requires a'.rank == a.rank && b'.rank == b.rank
    ensures MatchedItemEq(a, b) <==> MatchedItemEq(a', b')
    ensures MatchedItemCmp(a, b) == MatchedItemCmp(a', b')
    ensures MatchedItemEq(a, b) <==> MatchedItemCmp(a, b) == Equal
    ensures MatchedItemCmp(a, b) == Less <==>
      exists k :: 0 <= k < 4 && a.rank[..k] == b.rank[..k] && a.rank[k] < b.rank[k]
  {
    CompareKeysEqual(a.rank, b.rank);
    CompareKeysFirstDifference(a.rank, b.rank);
  }

  /** The order on matched items is a total order: antisymmetric and transitive. */
  lemma MatchedItemCmpTotalOrder<T>(a: MatchedItem<T>, b: MatchedItem<T>, c: MatchedItem<T>)
    ensures MatchedItemCmp(a, b) == Less <==> MatchedItemCmp(b, a) == Greater
    ensures MatchedItemCmp(a, b) == Less && MatchedItemCmp(b, c) == Less ==> MatchedItemCmp(a, c) == Less
  {
    CompareKeysAntisymmetric(a.rank, b.rank);
    if MatchedItemCmp(a, b) == Less && MatchedItemCmp(b, c) == Less {
      CompareKeysTransitive(a.rank, b.rank, c.rank);
    }
  }

  //------------------------------------------------------------------------------
  // The item pool

  /** The locked view a guard hands out: `guard[start..]`. */
  datatype ItemPoolGuard<T> = ItemPoolGuard(guard: seq<T>, start: nat)
  {
    /** `Deref for ItemPoolGuard`. */
    function Deref(): (view: seq<T>)
      requires start <= |guard|
      ensures |view| == |guard| - start
      ensures forall i :: 0 <= i < |view| ==> view[i] == guard[start + i]
    {
      guard[start..]
    }
  }

  /** The store of ingested items. The pool and the header list share one lock in the source;
      here they are plain fields. */
  class ItemPool<T> {
    var pool: seq<T>
    /** The header items (held weakly by the source). */
    var reserved: seq<T>
    /** Number of items handed out by `take`. */
    var taken: nat
    /** The published length of `pool`. */
    var length: nat
    const linesToReserve: nat

    /** The header is a prefix of the pool, no longer than its quota, and while the quota is
        open the pool holds nothing but the header. */
    ghost predicate Valid()
      reads this
    {
      && length == |pool|
      && taken <= length
      && |reserved| <= linesToReserve
      && reserved <= pool
      && (|reserved| < linesToReserve ==> reserved == pool)
    }

    /** `ItemPool::new().lines_to_reserve(n)`. */
    constructor (linesToReserve: nat)
      ensures Valid()
      ensures pool == [] && reserved == [] && taken == 0 && length == 0
      ensures this.linesToReserve == linesToReserve
    {
      pool := [];
      reserved := [];
      taken := 0;
      length := 0;
      this.linesToReserve := linesToReserve;
    }

    method Len() returns (n: nat)
      requires Valid()
      ensures n == length && n == |pool|
    {
      n := length;
    }

    method NumTaken() returns (n: nat)
      ensures n == taken
    {
      n := taken;
    }

    method NumNotTaken() returns (n: nat)
      requires Valid()
      ensures n == length - taken
      ensures n == |pool[taken..]|
    {
      n := length - taken;
    }

    /** Drops every item and header item and zeroes both counters. */
    method Clear()
      requires Valid()
      modifies this`pool, this`reserved, this`taken, this`length
      ensures Valid()
      ensures pool == [] && reserved == [] && taken == 0 && length == 0
    {
      pool := [];
      reserved := [];
      taken := 0;
      length := 0;
    }

    /** Rewinds the watermark; the stored items stay. */
    method Reset()
      requires Valid()
      modifies this`taken
      ensures Valid()
      ensures taken == 0
    {
      taken := 0;
    }

    /** While the header quota is open, only the first `min(quota, |items|)` items are stored,
        both in the pool and in the header; the rest of the batch is dropped. Otherwise the
        whole batch goes to the pool. Returns the new pool length. */
    method Append(items: seq<T>) returns (newLength: nat)
      requires Valid()
      modifies this`pool, this`reserved, this`length
      ensures Valid()
      ensures var quota := linesToReserve - |old(reserved)|;
        var k := if quota < |items| then quota else |items|;
        if quota > 0 then
          pool == old(pool) + items[..k] && reserved == old(reserved) + items[..k]
        else
          pool == old(pool) + items && reserved == old(reserved)
      ensures newLength == length == |pool|
    {
      var toReserve := linesToReserve - |reserved|;
      if toReserve > 0 {
        var k := if toReserve < |items| then toReserve else |items|;
        var reservedPool := items[..k];
        pool := pool + reservedPool;
        reserved := reserved + reservedPool;
      } else {
        pool := pool + items;
      }
      length := |pool|;
      newLength := |pool|;
    }

    /** Hands out the items not taken yet and moves the watermark to the end of the pool. */
    method Take() returns (g: ItemPoolGuard<T>)
      requires Valid()
      modifies this`taken
      ensures Valid()
      ensures g == ItemPoolGuard(pool, old(taken)) && taken == |pool|
      ensures g.start <= |g.guard| && g.Deref() == pool[old(taken)..]
    {
      g := ItemPoolGuard(pool, taken);
      taken := |pool|;
    }

    /** The header items, whatever the watermark. */
    method Reserved() returns (g: ItemPoolGuard<T>)
      requires Valid()
      ensures g.start == 0 && g.Deref() == reserved
    {
      g := ItemPoolGuard(reserved, 0);
    }
  }

  /** Two header lines, then batches [a, b, c] and [d]: the header is [a, b], item c is lost,
      the first take hands out [a, b, d] and the second nothing. */
  method ReservedHeaderExample<T>(a: T, b: T, c: T, d: T)
    returns (header: seq<T>, first: seq<T>, second: seq<T>, len: nat)
    ensures header == [a, b] && first == [a, b, d] && second == [] && len == 3
  {
    var p := new ItemPool<T>(2);
    var n := p.Append([a, b, c]);
    n := p.Append([d]);
    var h := p.Reserved();
    header := h.Deref();
    var g1 := p.Take();
    first := g1.Deref();
    var g2 := p.Take();
    second := g2.Deref();
    len := p.Len();
  }

  //------------------------------------------------------------------------------
  // Parsing criteria

  function LowerChar(ch: char): char
  {
    if 'A' <= ch <= 'Z' then (ch as int - 'A' as int + 'a' as int) as char else ch
  }

  /** Lower-casing of the ASCII letters. */
  function Lower(s: string): (r: string)
    ensures |r| == |s|
  {
    if s == [] then [] else [LowerChar(s[0])] + Lower(s[1..])
  }

  /** The keyword each criterion is spelled as. */
  function Keyword(c: RankCriteria): string
  {
    match c
    case Score => "score"
    case Begin => "begin"
    case End => "end"
    case NegScore => "-score"
    case NegBegin => "-begin"
    case NegEnd => "-end"
    case Length => "length"
    case NegLength => "-length"
  }

  /** The criterion a lower-case keyword names. */
  function FromKeyword(t: string): Option<RankCriteria>
  {
    if t == "score" then Some(Score)
    else if t == "begin" then Some(Begin)
    else if t == "end" then Some(End)
    else if t == "-score" then Some(NegScore)
    else if t == "-begin" then Some(NegBegin)
    else if t == "-end" then Some(NegEnd)
    else if t == "length" then Some(Length)
    else if t == "-length" then Some(NegLength)
    else None
  }

  /** `parse_criteria`. */
  function ParseCriteria(text: string): Option<RankCriteria>
  {
    FromKeyword(Lower(text))
  }

  lemma FromKeywordInverse(t: string, c: RankCriteria)
    ensures FromKeyword(t) == Some(c) <==> t == Keyword(c)
  {
    match c
    case Score =>
    case Begin =>
    case End =>
    case NegScore =>
    case NegBegin =>
    case NegEnd =>
    case Length =>
    case NegLength =>
  }

  lemma {:induction false} LowerIdempotent(s: string)
    ensures Lower(Lower(s)) == Lower(s)
  {
    if s != [] {
      LowerIdempotent(s[1..]);
    }
  }

  lemma {:induction false} LowerOfLowercase(s: string)
    requires forall i :: 0 <= i < |s| ==> !('A' <= s[i] <= 'Z')
    ensures Lower(s) == s
  {
    if s != [] {
      LowerOfLowercase(s[1..]);
    }
  }

  /** A text names criterion c exactly when its lower-cased form is c's keyword, and a text
      that names any criterion names the one whose keyword its lower-cased form is; so any other
      text yields None. */
  lemma ParseCriteriaSpec(text: string, c: RankCriteria)
    ensures ParseCriteria(text) == Some(c) <==> Lower(text) == Keyword(c)
    ensures ParseCriteria(text).Some? ==> Lower(text) == Keyword(ParseCriteria(text).value)
  {
    FromKeywordInverse(Lower(text), c);
    if ParseCriteria(text).Some? {
      FromKeywordInverse(Lower(text), ParseCriteria(text).value);
    }
  }

  /** Parsing ignores case, and every keyword parses back to its criterion. */
  lemma ParseCriteriaRoundTrip(text: string, c: RankCriteria)
    ensures ParseCriteria(text) == ParseCriteria(Lower(text))
    ensures ParseCriteria(Keyword(c)) == Some(c)
  {
    LowerIdempotent(text);
    KeywordIsLowercase(c);
    FromKeywordInverse(Keyword(c), c);
  }

  lemma KeywordIsLowercase(c: RankCriteria)
    ensures Lower(Keyword(c)) == Keyword(c)
  {
    var k := Keyword(c);
    assert forall i :: 0 <= i < |k| ==> k[i] in "-abcdefghijklmnopqrstuvwxyz";
    LowerOfLowercase(k);
  }
}
