/** One matching pass over the items not yet matched, and the control handle the caller keeps
    (src/matcher.rs). The pass runs on a worker thread in the program; here it runs to the end
    before `Run` returns, and a concurrent `kill` is replaced by an explicit stop point. */
module Matcher {
  import opened Common
  import opened Item
  import opened AndOr

  /** The rank and range given to every item in shortcut mode. */
  const UnmatchedRank: Rank := [0, 0, 0, 0]

  /** The shortcut mode: the query is disabled or empty. */
  predicate Shortcut(query: string, disabled: bool)
  {
    disabled || |query| == 0
  }

  /** When the stop flag is first seen set: never, at the check before publishing, or by the
      per-item check of the sweep when it is about to visit item k. */
  datatype StopPoint = Never | BeforePublish | AfterItems(k: nat)

  /** Whether the sweep's per-item check, about to visit item `index`, sees the flag set. */
  predicate StopSeen(stop: StopPoint, index: nat)
  {
    match stop
    case Never => false
    case BeforePublish => true
    case AfterItems(k) => k <= index
  }

  /** How many of `n` items the sweep visits. */
  function Visited(stop: StopPoint, n: nat): (v: nat)
    ensures v <= n
  {
    match stop
    case Never => n
    case BeforePublish => 0
    case AfterItems(k) => if k < n then k else n
  }

  /** What the pipeline yields for the item at snapshot position i: nothing when the engine
      rejects it; in shortcut mode the unmatched rank and no range; otherwise the engine's
      rank and range. The index is always the item's position in the whole pool. */
  function Entry<T>(answer: T -> Option<MatchResult>, snapshot: seq<T>, numTaken: nat, shortcut: bool, i: nat): seq<MatchedItem<T>>
    requires i < |snapshot|
  {
    match answer(snapshot[i])
    case None => []
    case Some(res) =>
      if shortcut then [MatchedItem(snapshot[i], UnmatchedRank, None, numTaken + i)]
      else [MatchedItem(snapshot[i], res.rank, Some(res.matchedRange), numTaken + i)]
  }

  /** What the engine answers, as a function of the item. */
  function EngineAnswer<T>(env: Env<T>, engine: Engine): T -> Option<MatchResult>
  {
    x => Match(env, engine, x)
  }

  /** The pipeline's output over the first n items of the snapshot. */
  function Pipeline<T>(answer: T -> Option<MatchResult>, snapshot: seq<T>, numTaken: nat, shortcut: bool, n: nat): seq<MatchedItem<T>>
    requires n <= |snapshot|
  {
    if n == 0 then []
    else Pipeline(answer, snapshot, numTaken, shortcut, n - 1) + Entry(answer, snapshot, numTaken, shortcut, n - 1)
  }

  /** The buffer and the two counters after a pass. */
  datatype PassOutcome<T> = PassOutcome(items: seq<MatchedItem<T>>, processed: nat, matched: nat)

  /** A whole pass: when the thread pool or the item pool is gone, or the stop flag is seen
      before publishing, the buffer keeps the previous results and nothing is counted;
      otherwise the buffer is replaced by the pipeline's output over the visited prefix. */
  function Pass<T>(answer: T -> Option<MatchResult>, shortcut: bool, poolsAlive: bool,
                   snapshot: seq<T>, numTaken: nat, seed: seq<MatchedItem<T>>, stop: StopPoint): PassOutcome<T>
  {
    if !poolsAlive || stop == BeforePublish then PassOutcome(seed, 0, 0)
    else
      var v := Visited(stop, |snapshot|);
      var p := Pipeline(answer, snapshot, numTaken, shortcut, v);
      PassOutcome(p, v, if shortcut then 0 else |p|)
  }

  /** The lazy `take_while`/`filter_map`/`map` chain, drained into the buffer: visits items in
      order until the stop flag is seen, counting each visit, and counts every match in
      normal mode. */
  method Sweep<T>(env: Env<T>, engine: Engine, snapshot: seq<T>, numTaken: nat, shortcut: bool, stop: StopPoint)
    returns (published: seq<MatchedItem<T>>, processed: nat, matched: nat)
    ensures processed == Visited(stop, |snapshot|)
    ensures published == Pipeline(EngineAnswer(env, engine), snapshot, numTaken, shortcut, processed)
    ensures matched == if shortcut then 0 else |published|
  {
    published := [];
    processed := 0;
    matched := 0;
    var index := 0;
    while index < |snapshot| && !StopSeen(stop, index)
      invariant index <= |snapshot| && processed == index
      invariant index <= Visited(stop, |snapshot|)
      invariant published == Pipeline(EngineAnswer(env, engine), snapshot, numTaken, shortcut, index)
      invariant matched == if shortcut then 0 else |published|
    {
      processed := processed + 1;
      var res := MatchItem(env, engine, snapshot[index]);
      assert res == EngineAnswer(env, engine)(snapshot[index]);
      assert Pipeline(EngineAnswer(env, engine), snapshot, numTaken, shortcut, index + 1) ==
        published + Entry(EngineAnswer(env, engine), snapshot, numTaken, shortcut, index);
      if res.Some? {
        if shortcut {
          published := published + [MatchedItem(snapshot[index], UnmatchedRank, None, numTaken + index)];
        } else {
          matched := matched + 1;
          published := published + [MatchedItem(snapshot[index], res.value.rank, Some(res.value.matchedRange), numTaken + index)];
        }
      }
      index := index + 1;
    }
  }

  /** The handle the caller keeps on a pass: the shared flag, counters and buffer, and the
      worker thread's handle until it is joined. */
  class MatcherControl<T> {
    var stopped: bool
    var processed: nat
    var matched: nat
    var items: seq<MatchedItem<T>>
    /** Whether the thread handle is still held (`opt_thread_handle.is_some()`). */
    var threadHandle: bool
    /** How many times the worker thread has been joined. */
    ghost var joins: nat

    /** The thread is joined once, exactly when the handle has been given up. */
    ghost predicate Valid()
      reads this
    {
      joins + (if threadHandle then 1 else 0) == 1
    }

    /** The handle `Matcher::run` returns once the pass has finished and set the flag. */
    constructor (outcome: PassOutcome<T>)
      ensures Valid()
      ensures stopped && threadHandle && joins == 0
      ensures items == outcome.items && processed == outcome.processed && matched == outcome.matched
    {
      stopped := true;
      processed := outcome.processed;
      matched := outcome.matched;
      items := outcome.items;
      threadHandle := true;
      joins := 0;
    }

    method GetNumProcessed() returns (n: nat)
      ensures n == processed
    {
      n := processed;
    }

    method GetNumMatched() returns (n: nat)
      ensures n == matched
    {
      n := matched;
    }

    method Stopped() returns (b: bool)
      ensures b == stopped
    {
      b := stopped;
    }

    /** Sets the flag and joins the thread if its handle is still held; a second kill joins
        nothing. */
    method Kill()
      requires Valid()
      modifies this`stopped, this`threadHandle, this`joins
      ensures Valid()
      ensures stopped && !threadHandle && joins == 1
      ensures !old(threadHandle) ==> joins == old(joins)
    {
      stopped := true;
      if threadHandle {
        threadHandle := false;
        joins := joins + 1;
      }
    }

    /** Drains the buffer: returns what it held and leaves it empty. */
    method Take() returns (xs: seq<MatchedItem<T>>)
      modifies this`items
      ensures xs == old(items) && items == []
    {
      xs := items;
      items := [];
    }
  }

  /** `Matcher::run` with the worker's body run in place. The engine is the one the factory
      built for `query`; `threadPoolAlive` and `itemPoolAlive` say whether the weak references
      still upgrade; `seed` is the previous results the buffer starts with. */
  method Run<T>(env: Env<T>, engine: Engine, query: string, disabled: bool, threadPoolAlive: bool,
                itemPoolAlive: bool, itemPool: ItemPool<T>, seed: seq<MatchedItem<T>>, stop: StopPoint)
    returns (c: MatcherControl<T>)
    requires itemPool.Valid()
    modifies itemPool`taken
    ensures fresh(c) && c.Valid() && c.stopped && c.threadHandle
    ensures PassOutcome(c.items, c.processed, c.matched) ==
      Pass(EngineAnswer(env, engine), Shortcut(query, disabled), threadPoolAlive && itemPoolAlive,
           old(itemPool.pool[itemPool.taken..]), old(itemPool.taken), seed, stop)
    ensures itemPool.Valid()
    ensures itemPool.taken == if threadPoolAlive && itemPoolAlive then |itemPool.pool| else old(itemPool.taken)
  {
    var shortcut := Shortcut(query, disabled);
    var outcome := PassOutcome(seed, 0, 0);
    if threadPoolAlive && itemPoolAlive {
      var numTaken := itemPool.NumTaken();
      var guard := itemPool.Take();
      var snapshot := guard.Deref();
      if stop != BeforePublish {
        var published, processed, matched := Sweep(env, engine, snapshot, numTaken, shortcut, stop);
        outcome := PassOutcome(published, processed, matched);
      }
    }
    c := new MatcherControl(outcome);
  }

  /** Two consecutive takes give the buffer, then nothing. */
  method TakeTwice<T>(outcome: PassOutcome<T>) returns (first: seq<MatchedItem<T>>, second: seq<MatchedItem<T>>)
    ensures first == outcome.items && second == []
  {
    var c := new MatcherControl(outcome);
    first := c.Take();
    second := c.Take();
  }

  /** Killing twice sets the flag and joins the thread once. */
  method KillTwice<T>(outcome: PassOutcome<T>) returns (stopped: bool, ghost joins: nat)
    ensures stopped && joins == 1
  {
    var c := new MatcherControl(outcome);
    c.Kill();
    c.Kill();
    stopped := c.Stopped();
    joins := c.joins;
  }

  //------------------------------------------------------------------------------
  // Properties of a pass

  /** Every entry's index lies in [numTaken, numTaken + n) and its item is the snapshot item at
      that position. */
  ghost predicate IndexedWithin<T>(snapshot: seq<T>, numTaken: nat, n: nat, p: seq<MatchedItem<T>>)
    requires n <= |snapshot|
  {
    forall k :: 0 <= k < |p| ==>
      numTaken <= p[k].itemIdx < numTaken + n && p[k].item == snapshot[p[k].itemIdx - numTaken]
  }

  predicate IndicesIncreasing<T>(p: seq<MatchedItem<T>>)
  {
    forall a, b :: 0 <= a < b < |p| ==> p[a].itemIdx < p[b].itemIdx
  }

  /** One step of the pipeline appends at most the entry for item n - 1. */
  lemma PipelineStep<T>(answer: T -> Option<MatchResult>, snapshot: seq<T>, numTaken: nat, shortcut: bool, n: nat)
    requires 0 < n <= |snapshot|
    ensures var e := Entry(answer, snapshot, numTaken, shortcut, n - 1);
      && Pipeline(answer, snapshot, numTaken, shortcut, n) == Pipeline(answer, snapshot, numTaken, shortcut, n - 1) + e
      && |e| <= 1
      && (|e| == 1 <==> answer(snapshot[n - 1]).Some?)
      && (|e| == 1 ==> e[0].itemIdx == numTaken + n - 1 && e[0].item == snapshot[n - 1])
  {
  }

  /** Published entries carry strictly increasing indices inside the swept window, and each
      entry's item is the snapshot item at its index's position. */
  lemma {:induction false} PipelineIndices<T>(answer: T -> Option<MatchResult>, snapshot: seq<T>, numTaken: nat, shortcut: bool, n: nat)
    requires n <= |snapshot|
    ensures |Pipeline(answer, snapshot, numTaken, shortcut, n)| <= n
    ensures IndexedWithin(snapshot, numTaken, n, Pipeline(answer, snapshot, numTaken, shortcut, n))
    ensures IndicesIncreasing(Pipeline(answer, snapshot, numTaken, shortcut, n))
  {
    if n > 0 {
      PipelineIndices(answer, snapshot, numTaken, shortcut, n - 1);
      PipelineStep(answer, snapshot, numTaken, shortcut, n);
      var p' := Pipeline(answer, snapshot, numTaken, shortcut, n - 1);
      var e := Entry(answer, snapshot, numTaken, shortcut, n - 1);
      var p := p' + e;
      forall k | 0 <= k < |p|
        ensures numTaken <= p[k].itemIdx < numTaken + n && p[k].item == snapshot[p[k].itemIdx - numTaken]
      {
        if k < |p'| { assert p[k] == p'[k]; } else { assert p[k] == e[0]; }
      }
      forall a, b | 0 <= a < b < |p|
        ensures p[a].itemIdx < p[b].itemIdx
      {
        assert p[a] == p'[a];
        if b < |p'| { assert p[b] == p'[b]; } else { assert p[b] == e[0]; }
      }
    }
  }

  /** Whether an entry with index `idx` was published. */
  predicate PublishedAt<T>(p: seq<MatchedItem<T>>, idx: nat)
  {
    exists k :: 0 <= k < |p| && p[k].itemIdx == idx
  }

  /** An item inside the swept window is published exactly when the engine matches it, in
      shortcut mode as well as in normal mode. */
  lemma {:induction false} PublishedIffMatched<T>(answer: T -> Option<MatchResult>, snapshot: seq<T>, numTaken: nat, shortcut: bool, n: nat)
    requires n <= |snapshot|
    ensures forall i :: 0 <= i < n ==>
      (PublishedAt(Pipeline(answer, snapshot, numTaken, shortcut, n), numTaken + i) <==> answer(snapshot[i]).Some?)
  {
    if n > 0 {
      PublishedIffMatched(answer, snapshot, numTaken, shortcut, n - 1);
      PipelineIndices(answer, snapshot, numTaken, shortcut, n - 1);
      PipelineStep(answer, snapshot, numTaken, shortcut, n);
      var p' := Pipeline(answer, snapshot, numTaken, shortcut, n - 1);
      var e := Entry(answer, snapshot, numTaken, shortcut, n - 1);
      var p := p' + e;
      forall i | 0 <= i < n
        ensures PublishedAt(p, numTaken + i) <==> answer(snapshot[i]).Some?
      {
        PublishedAtAppend(p', e, numTaken + i);
      }
    }
  }

  lemma PublishedAtAppend<T>(p: seq<MatchedItem<T>>, e: seq<MatchedItem<T>>, idx: nat)
    requires |e| <= 1
    ensures PublishedAt(p + e, idx) <==> PublishedAt(p, idx) || (|e| == 1 && e[0].itemIdx == idx)
  {
    var q := p + e;
    if PublishedAt(q, idx) {
      var k :| 0 <= k < |q| && q[k].itemIdx == idx;
      if k < |p| { assert p[k] == q[k]; } else { assert q[k] == e[0]; }
    }
    if PublishedAt(p, idx) {
      var k :| 0 <= k < |p| && p[k].itemIdx == idx;
      assert q[k] == p[k];
    }
    if |e| == 1 && e[0].itemIdx == idx {
      assert q[|p|] == e[0];
    }
  }

  /** Every entry's item is one the engine matched; in shortcut mode the entry has the
      unmatched rank and no range, otherwise exactly the engine's rank and range. */
  predicate CarriesAnswers<T>(answer: T -> Option<MatchResult>, shortcut: bool, p: seq<MatchedItem<T>>)
  {
    forall k :: 0 <= k < |p| ==>
      && answer(p[k].item).Some?
      && (shortcut ==> p[k].rank == UnmatchedRank && p[k].matchedRange == None)
      && (!shortcut ==> p[k].rank == answer(p[k].item).value.rank &&
                        p[k].matchedRange == Some(answer(p[k].item).value.matchedRange))
  }

  /** Published entries carry the answers of the engine for their items (which
      `PipelineIndices` places at the entry's index in the snapshot). */
  lemma {:induction false} EntryContents<T>(answer: T -> Option<MatchResult>, snapshot: seq<T>, numTaken: nat, shortcut: bool, n: nat)
    requires n <= |snapshot|
    ensures CarriesAnswers(answer, shortcut, Pipeline(answer, snapshot, numTaken, shortcut, n))
  {
    if n > 0 {
      EntryContents(answer, snapshot, numTaken, shortcut, n - 1);
    }
  }

  /** Stopping earlier publishes a prefix of what stopping later publishes. */
  lemma {:induction false} PipelinePrefix<T>(answer: T -> Option<MatchResult>, snapshot: seq<T>, numTaken: nat, shortcut: bool, m: nat, n: nat)
    requires m <= n <= |snapshot|
    ensures var q := Pipeline(answer, snapshot, numTaken, shortcut, m);
      var p := Pipeline(answer, snapshot, numTaken, shortcut, n);
      |q| <= |p| && q == p[..|q|]
    decreases n
  {
    if m < n {
      PipelinePrefix(answer, snapshot, numTaken, shortcut, m, n - 1);
      var q := Pipeline(answer, snapshot, numTaken, shortcut, m);
      var p' := Pipeline(answer, snapshot, numTaken, shortcut, n - 1);
      var p := Pipeline(answer, snapshot, numTaken, shortcut, n);
      assert p[..|p'|] == p';
      assert p[..|q|] == p'[..|q|];
    }
  }

  /** The counters after a pass: `processed` never exceeds the snapshot and equals it when no
      stop was seen; `matched` is zero in shortcut mode and otherwise the number published.
      A stop before publishing keeps the previous results; a stop before the first item
      publishes nothing, discarding them. */
  lemma PassCounters<T>(answer: T -> Option<MatchResult>, shortcut: bool, poolsAlive: bool,
                        snapshot: seq<T>, numTaken: nat, seed: seq<MatchedItem<T>>, stop: StopPoint)
    ensures var o := Pass(answer, shortcut, poolsAlive, snapshot, numTaken, seed, stop);
      && o.processed <= |snapshot|
      && (poolsAlive && stop == Never ==> o.processed == |snapshot|)
      && o.matched == (if shortcut || !poolsAlive || stop == BeforePublish then 0 else |o.items|)
      && (stop == BeforePublish ==> o.items == seed)
      && (poolsAlive && stop == AfterItems(0) ==> o.items == [])
      && (poolsAlive && stop != BeforePublish ==> |o.items| <= o.processed)
  {
    if poolsAlive && stop != BeforePublish {
      PipelineIndices(answer, snapshot, numTaken, shortcut, Visited(stop, |snapshot|));
    }
  }

  /** A disabled query over [10, 11, 12] whose engine rejects 11 still drops 11, and gives the
      others the unmatched rank, no range and their pool indices. */
  lemma DisabledStillFilters(numTaken: nat)
    ensures
      var answer := (x: int) => if x == 11 then None else Some(MatchResult([1, 2, 3, 4], Chars([0])));
      Pass(answer, Shortcut("abc", true), true, [10, 11, 12], numTaken, [], Never).items ==
        [MatchedItem(10, UnmatchedRank, None, numTaken), MatchedItem(12, UnmatchedRank, None, numTaken + 2)]
  {
    var answer := (x: int) => if x == 11 then None else Some(MatchResult([1, 2, 3, 4], Chars([0])));
    var snapshot := [10, 11, 12];
    assert Pipeline(answer, snapshot, numTaken, true, 1) == [MatchedItem(10, UnmatchedRank, None, numTaken)];
    assert Pipeline(answer, snapshot, numTaken, true, 2) == [MatchedItem(10, UnmatchedRank, None, numTaken)];
  }
}
