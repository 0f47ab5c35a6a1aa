/** What --fixup may and may not change. */
module CppSorterLaws {
  import opened ComparisonSorts
  import opened Sorting
  import opened CppSnippets
  import opened CppSorter

  /** Only includes and blank code: what a batch may hold. */
  ghost predicate IsBatch(s: seq<Snippet>) {
    forall i :: 0 <= i < |s| ==> !IsBreaker(s[i])
  }

  // One batch ---------------------------------------------------------------------------------------

  lemma {:induction false} NoIncludeAfterCutoff(batch: seq<Snippet>)
    ensures Includes(batch[Cutoff(batch)..]) == []
  {
    if batch != [] {
      NoIncludeAfterCutoff(batch[1..]);
      if Cutoff(batch) > 0 {
        assert batch[Cutoff(batch)..] == batch[1..][Cutoff(batch) - 1..];
      } else {
        assert batch[0..] == batch && batch[1..][0..] == batch[1..];
      }
    }
  }

  lemma IncludeFirst(inc: Include, rest: seq<Snippet>)
    requires IsBatch(rest)
    ensures Includes([Inc(inc)] + rest) == [inc] + Includes(rest) && IsBatch([Inc(inc)] + rest)
  {
    assert ([Inc(inc)] + rest)[1..] == rest;
  }

  lemma BlankFirst(rest: seq<Snippet>)
    requires IsBatch(rest)
    ensures Includes([BLANK_LINE] + rest) == Includes(rest) && IsBatch([BLANK_LINE] + rest)
  {
    assert ([BLANK_LINE] + rest)[1..] == rest;
    assert Concat(["\n"]) == "\n" + Concat([]);
  }

  lemma {:induction false} SeparatedKeepsIncludes(style: Style, includes: seq<Include>)
    ensures Includes(Separated(style, includes)) == includes
    ensures IsBatch(Separated(style, includes))
  {
    hide Includes, IsBreaker;
    if includes == [] {
      NoIncludes();
    } else {
      var rest := Separated(style, includes[1..]);
      SeparatedKeepsIncludes(style, includes[1..]);
      assert includes == [includes[0]] + includes[1..];
      if |includes| > 1 && style.key(includes[0]).0 != style.key(includes[1]).0 {
        BlankFirst(rest);
        IncludeFirst(includes[0], [BLANK_LINE] + rest);
        assert [Inc(includes[0]), BLANK_LINE] + rest == [Inc(includes[0])] + ([BLANK_LINE] + rest);
      } else {
        IncludeFirst(includes[0], rest);
      }
    }
  }

  lemma NoIncludes()
    ensures Includes([]) == []
  {
  }

  /**
   * Flushing a batch permutes its includes and otherwise only touches blank code; if it sorts at all, the includes
   * come out in order of their keys, and if it does not, the batch is unchanged.
   */
  lemma FlushLaws(style: Style, batch: seq<Snippet>)
    requires IsBatch(batch)
    ensures IsBatch(Flushed(style, batch))
    ensures multiset(Includes(Flushed(style, batch))) == multiset(Includes(batch))
    ensures ShouldTry(style, Includes(batch)) ==> InOrder(ByKey(style), Includes(Flushed(style, batch)))
    ensures !ShouldTry(style, Includes(batch)) ==> Flushed(style, batch) == batch
    ensures !ShouldTry(style, Includes(Flushed(style, batch)))
  {
    hide Sort, ByKey, InOrder, IsBreaker, Includes;
    if ShouldTry(style, Includes(batch)) {
      var includes := Includes(batch);
      FlushedWhenTried(style, batch);
      SortIsStable(style, includes);
    }
  }

  lemma FlushedWhenTried(style: Style, batch: seq<Snippet>)
    requires IsBatch(batch) && ShouldTry(style, Includes(batch))
    ensures Includes(Flushed(style, batch)) == Sort(ByKey(style), Includes(batch))
    ensures IsBatch(Flushed(style, batch))
  {
    hide Sort, ByKey, Separated, Cutoff, IsBreaker, ShouldTry;
    var sorted, rest := Sort(ByKey(style), Includes(batch)), batch[Cutoff(batch)..];
    SeparatedKeepsIncludes(style, sorted);
    NoIncludeAfterCutoff(batch);
    IncludesSplit(Separated(style, sorted), rest);
    assert sorted + [] == sorted;
  }

  lemma SortIsStable(style: Style, includes: seq<Include>)
    ensures
      var sorted := Sort(ByKey(style), includes);
      && multiset(sorted) == multiset(includes)
      && InOrder(ByKey(style), sorted)
      && !ShouldTry(style, sorted)
  {
    hide Sort, ByKey, InOrder;
    KeyOrder(style);
    SortKeeps(ByKey(style), includes);
    SortOfSorted(ByKey(style), Sort(ByKey(style), includes));
  }

  /** With distinct keys, the order of an attempted batch is strict, and no other order would do. */
  lemma FlushedStrictly(style: Style, batch: seq<Snippet>, i: nat, j: nat)
    requires IsBatch(batch) && ShouldTry(style, Includes(batch)) && Flushable(style, batch)
    requires i < j < |Includes(Flushed(style, batch))|
    ensures ByKey(style)(Includes(Flushed(style, batch))[i], Includes(Flushed(style, batch))[j])
  {
    var before, after := Includes(batch), Includes(Flushed(style, batch));
    FlushLaws(style, batch);
    KeyOrder(style);
    PermutedDistinct(style, before, after);
    assert style.key(after[i]) != style.key(after[j]);
  }

  // Any other sort ----------------------------------------------------------------------------------

  /** How the pairs at two positions compare; positions past the end come last. */
  function PairBefore(style: Style, includes: seq<Include>): (nat, nat) -> bool {
    (i: nat, j: nat) => i < |includes| && (j < |includes| ==> ByKey(style)(includes[i], includes[j]))
  }

  lemma PairBeforeWeak(style: Style, includes: seq<Include>)
    ensures StrictWeak(PairBefore(style, includes))
    ensures NoTiesBelow(PairBefore(style, includes), |includes|) <==> DistinctKeys(style, includes)
  {
    hide KeyLess;
    KeyOrder(style);
    var less := PairBefore(style, includes);
    if NoTiesBelow(less, |includes|) {
      forall i, j | 0 <= i < j < |includes| ensures style.key(includes[i]) != style.key(includes[j]) {
        assert less(i, j) || less(j, i);
        SameKeyTies(style, includes[i], includes[j]);
      }
    }
  }

  lemma SameKeyTies(style: Style, a: Include, b: Include)
    requires ByKey(style)(a, b) || ByKey(style)(b, a)
    ensures style.key(a) != style.key(b)
  {
    KeyOrder(style);
    assert !ByKey(style)(a, a) && !ByKey(style)(b, b);
  }

  /**
   * That sorting pairs fails exactly on equal keys does not depend on insertion: every sort by comparisons fails on the
   * same includes, and otherwise gives the same result.
   */
  lemma EverySortAgrees(style: Style, includes: seq<Include>, sort: Decision)
    requires Sorts(sort, |includes|)
    ensures Decide(sort, PairBefore(style, includes)).Some? <==> SortPairs(style, includes).Ok?
    ensures SortPairs(style, includes).Ok? ==>
      var order := Decide(sort, PairBefore(style, includes)).value;
      Below(order, |includes|) && At(includes, order) == SortPairs(style, includes).value
  {
    hide ByKey, KeyLess, Sorts, SortPairs, Decide, StrictWeak, InOrder;
    var less := PairBefore(style, includes);
    PairBeforeWeak(style, includes);
    FailsExactlyOnTies(sort, |includes|, less);
    SortPairsIff(style, includes);
    if Decide(sort, less).Some? {
      var order := Decide(sort, less).value;
      ArrangesAll(includes, order);
      ArrangedInOrder(style, includes, order);
      KeyOrder(style);
      SortKeeps(ByKey(style), includes);
      DistinctNoTies(style, includes, At(includes, order));
      OrderDetermines(ByKey(style), At(includes, order), Sort(ByKey(style), includes));
    }
  }

  lemma ArrangedInOrder(style: Style, includes: seq<Include>, order: seq<nat>)
    requires InOrder(PairBefore(style, includes), order) && Below(order, |includes|)
    ensures InOrder(ByKey(style), At(includes, order))
  {
    hide ByKey;
    forall k, l | 0 <= k < l < |order| ensures !ByKey(style)(includes[order[l]], includes[order[k]]) {
      assert !PairBefore(style, includes)(order[l], order[k]);
    }
  }

  lemma DistinctNoTies(style: Style, includes: seq<Include>, r: seq<Include>)
    requires DistinctKeys(style, includes) && multiset(r) == multiset(includes)
    ensures NoTies(ByKey(style), r)
  {
    hide ByKey;
    KeyOrder(style);
    PermutedDistinct(style, includes, r);
    forall x, y | x in r && y in r && x != y ensures ByKey(style)(x, y) || ByKey(style)(y, x) {
      var i :| 0 <= i < |r| && r[i] == x;
      var j :| 0 <= j < |r| && r[j] == y;
      assert style.key(r[i]) != style.key(r[j]);
    }
  }

  // Blocks ------------------------------------------------------------------------------------------

  /** The maximal runs between breakers, one more than there are breakers. */
  function Runs(kids: seq<Snippet>): (r: seq<seq<Snippet>>)
    ensures r != []
  {
    if kids == [] then [[]]
    else
      var r := Runs(kids[1..]);
      if IsBreaker(kids[0]) then [[]] + r else [[kids[0]] + r[0]] + r[1..]
  }

  function Breakers(kids: seq<Snippet>): seq<Snippet> {
    if kids == [] then []
    else (if IsBreaker(kids[0]) then [kids[0]] else []) + Breakers(kids[1..])
  }

  function Interleave(runs: seq<seq<Snippet>>, breakers: seq<Snippet>): seq<Snippet>
    requires |runs| == |breakers| + 1
  {
    if breakers == [] then runs[0] else runs[0] + [breakers[0]] + Interleave(runs[1..], breakers[1..])
  }

  /** Runs and breakers together are all there is. */
  lemma {:induction false} RunsAndBreakers(kids: seq<Snippet>)
    ensures |Runs(kids)| == |Breakers(kids)| + 1
    ensures Interleave(Runs(kids), Breakers(kids)) == kids
    ensures forall i :: 0 <= i < |Runs(kids)| ==> IsBatch(Runs(kids)[i])
  {
    if kids != [] {
      RunsAndBreakers(kids[1..]);
      var runs, breakers := Runs(kids[1..]), Breakers(kids[1..]);
      assert kids == [kids[0]] + kids[1..];
      if IsBreaker(kids[0]) {
        assert ([[]] + runs)[1..] == runs && ([kids[0]] + breakers)[1..] == breakers;
        assert Interleave([[]] + runs, [kids[0]] + breakers) == [] + [kids[0]] + Interleave(runs, breakers);
      } else {
        assert [] + breakers == breakers;
        LongerFirstRun(kids[0], runs, breakers);
      }
    }
  }

  lemma LongerFirstRun(s: Snippet, runs: seq<seq<Snippet>>, breakers: seq<Snippet>)
    requires |runs| == |breakers| + 1
    ensures Interleave([[s] + runs[0]] + runs[1..], breakers) == [s] + Interleave(runs, breakers)
  {
    var runs' := [[s] + runs[0]] + runs[1..];
    assert runs'[1..] == runs[1..];
    if breakers != [] {
      assert ([s] + runs[0]) + [breakers[0]] + Interleave(runs[1..], breakers[1..])
          == [s] + (runs[0] + [breakers[0]] + Interleave(runs[1..], breakers[1..]));
    }
  }

  function FlushedRuns(style: Style, runs: seq<seq<Snippet>>): (r: seq<seq<Snippet>>)
    ensures |r| == |runs|
    ensures forall i :: 0 <= i < |runs| ==> r[i] == Flushed(style, runs[i])
  {
    seq(|runs|, i requires 0 <= i < |runs| => Flushed(style, runs[i]))
  }

  function SortedSnippets(style: Style, kids: seq<Snippet>): (r: seq<Snippet>)
    ensures |r| == |kids|
    ensures forall i :: 0 <= i < |kids| ==> r[i] == SortedSnippet(style, kids[i])
  {
    seq(|kids|, i requires 0 <= i < |kids| => SortedSnippet(style, kids[i]))
  }

  lemma SortedStaysBreaker(style: Style, s: Snippet)
    ensures IsBreaker(SortedSnippet(style, s)) == IsBreaker(s)
  {
  }

  lemma {:induction false} RunsAfterBatch(batch: seq<Snippet>, rest: seq<Snippet>)
    requires IsBatch(batch)
    ensures Runs(batch + rest) == [batch + Runs(rest)[0]] + Runs(rest)[1..]
    ensures Breakers(batch + rest) == Breakers(rest)
  {
    if batch == [] {
      assert batch + rest == rest;
      assert [] + Runs(rest)[0] == Runs(rest)[0];
    } else {
      assert (batch + rest)[1..] == batch[1..] + rest;
      RunsAfterBatch(batch[1..], rest);
      assert [batch[0]] + (batch[1..] + Runs(rest)[0]) == batch + Runs(rest)[0];
      assert [] + Breakers(rest) == Breakers(rest);
    }
  }

  lemma {:induction false} SortedRunwise(style: Style, kids: seq<Snippet>, batch: seq<Snippet>)
    requires IsBatch(batch)
    ensures Runs(SortedKids(style, kids, batch)) == FlushedRuns(style, Runs(batch + kids))
    ensures Breakers(SortedKids(style, kids, batch)) == SortedSnippets(style, Breakers(batch + kids))
  {
    hide Flushed, SortedSnippet, IsBreaker, Runs, Breakers;
    RunsAfterBatch(batch, kids);
    if kids == [] {
      RunwiseEnd(style, batch);
    } else if IsBreaker(kids[0]) {
      SortedRunwise(style, kids[1..], []);
      assert [] + kids[1..] == kids[1..];
      RunwiseBreaker(style, batch, kids, SortedKids(style, kids[1..], []));
    } else {
      assert IsBatch(batch + [kids[0]]);
      SortedRunwise(style, kids[1..], batch + [kids[0]]);
      assert batch + kids == (batch + [kids[0]]) + kids[1..];
    }
  }

  lemma RunwiseEnd(style: Style, batch: seq<Snippet>)
    requires IsBatch(batch)
    ensures Runs(Flushed(style, batch)) == FlushedRuns(style, Runs(batch + []))
    ensures Breakers(Flushed(style, batch)) == SortedSnippets(style, Breakers(batch + []))
  {
    hide Flushed, SortedSnippet, IsBreaker;
    var f := Flushed(style, batch);
    FlushLaws(style, batch);
    RunsAfterBatch(batch, []);
    RunsAfterBatch(f, []);
    assert f + [] == f && batch + [] == batch;
  }

  lemma RunwiseBreaker(style: Style, batch: seq<Snippet>, kids: seq<Snippet>, r: seq<Snippet>)
    requires IsBatch(batch) && kids != [] && IsBreaker(kids[0])
    requires Runs(r) == FlushedRuns(style, Runs(kids[1..])) && Breakers(r) == SortedSnippets(style, Breakers(kids[1..]))
    ensures
      var out := Flushed(style, batch) + [SortedSnippet(style, kids[0])] + r;
      && Runs(out) == FlushedRuns(style, Runs(batch + kids))
      && Breakers(out) == SortedSnippets(style, Breakers(batch + kids))
  {
    hide Flushed, SortedSnippet, IsBreaker, Runs, Breakers, IsBatch, ShouldTry, Includes, InOrder;
    var f, s := Flushed(style, batch), SortedSnippet(style, kids[0]);
    FlushLaws(style, batch);
    SortedStaysBreaker(style, kids[0]);
    RunsAfterBatch(batch, kids);
    RunsAfterBatch(f, [s] + r);
    assert f + ([s] + r) == f + [s] + r;
    assert kids == [kids[0]] + kids[1..];
    BreakerFirst(s, r);
    BreakerFirst(kids[0], kids[1..]);
    FlushedAfterBreaker(style, batch, Runs(kids[1..]));
    SortedAfterBreaker(style, kids[0], Breakers(kids[1..]));
  }

  lemma BreakerFirst(s: Snippet, r: seq<Snippet>)
    requires IsBreaker(s)
    ensures Runs([s] + r) == [[]] + Runs(r) && Breakers([s] + r) == [s] + Breakers(r)
  {
    assert ([s] + r)[1..] == r;
  }

  lemma FlushedAfterBreaker(style: Style, batch: seq<Snippet>, runs: seq<seq<Snippet>>)
    ensures FlushedRuns(style, [batch + []] + ([[]] + runs)[1..])
      == [Flushed(style, batch) + []] + ([[]] + FlushedRuns(style, runs))[1..]
  {
    hide Flushed;
    assert batch + [] == batch && Flushed(style, batch) + [] == Flushed(style, batch);
  }

  lemma SortedAfterBreaker(style: Style, s: Snippet, breakers: seq<Snippet>)
    ensures SortedSnippets(style, [s] + breakers) == [SortedSnippet(style, s)] + SortedSnippets(style, breakers)
  {
    hide SortedSnippet;
  }

  /**
   * Sorting a block works run by run: code and nested blocks stay where they are, nested blocks are sorted
   * themselves, and each maximal run in between is flushed on its own.
   */
  lemma SortsRunByRun(style: Style, b: Snippet)
    requires b.Block?
    ensures SortedSnippet(style, b).start == b.start && SortedSnippet(style, b).end == b.end
    ensures Runs(SortedSnippet(style, b).kids) == FlushedRuns(style, Runs(b.kids))
    ensures Breakers(SortedSnippet(style, b).kids) == SortedSnippets(style, Breakers(b.kids))
  {
    assert [] + b.kids == b.kids;
    SortedRunwise(style, b.kids, []);
  }

  // Idempotence -------------------------------------------------------------------------------------

  lemma {:induction false} BatchIsAbsorbed(style: Style, batch: seq<Snippet>, more: seq<Snippet>, rest: seq<Snippet>)
    requires IsBatch(more)
    ensures SortedKids(style, more + rest, batch) == SortedKids(style, rest, batch + more)
    ensures Sortable(style, more + rest, batch) == Sortable(style, rest, batch + more)
    decreases |more|
  {
    if more == [] {
      assert more + rest == rest && batch + more == batch;
    } else {
      assert (more + rest)[1..] == more[1..] + rest;
      assert (batch + [more[0]]) + more[1..] == batch + more;
      BatchIsAbsorbed(style, batch + [more[0]], more[1..], rest);
    }
  }

  lemma {:induction false} KidsIdempotent(style: Style, kids: seq<Snippet>, batch: seq<Snippet>)
    requires IsBatch(batch)
    ensures
      var out := SortedKids(style, kids, batch);
      SortedKids(style, out, []) == out && Sortable(style, out, [])
    decreases kids, 0
  {
    hide Flushed, IsBreaker, ShouldTry, IsBatch, Includes, InOrder, Flushable;
    var f := Flushed(style, batch);
    FlushLaws(style, batch);
    FlushTwice(style, batch);
    if kids == [] {
      AbsorbedFirst(style, f, []);
    } else if IsBreaker(kids[0]) {
      var s, r := SortedSnippet(style, kids[0]), SortedKids(style, kids[1..], []);
      SnippetIdempotent(style, kids[0]);
      EmptyBatch();
      KidsIdempotent(style, kids[1..], []);
      SortedStaysBreaker(style, kids[0]);
      AbsorbedFirst(style, f, [s] + r);
      assert f + ([s] + r) == f + [s] + r;
      assert ([s] + r)[1..] == r;
    } else {
      LongerBatch(batch, kids[0]);
      KidsIdempotent(style, kids[1..], batch + [kids[0]]);
    }
  }

  lemma EmptyBatch()
    ensures IsBatch([])
  {
  }

  lemma LongerBatch(batch: seq<Snippet>, s: Snippet)
    requires IsBatch(batch) && !IsBreaker(s)
    ensures IsBatch(batch + [s])
  {
  }

  lemma AbsorbedFirst(style: Style, batch: seq<Snippet>, rest: seq<Snippet>)
    requires IsBatch(batch)
    ensures SortedKids(style, batch + rest, []) == SortedKids(style, rest, batch)
    ensures Sortable(style, batch + rest, []) == Sortable(style, rest, batch)
    ensures batch + [] == batch
  {
    BatchIsAbsorbed(style, [], batch, rest);
    assert [] + batch == batch;
  }

  lemma FlushTwice(style: Style, batch: seq<Snippet>)
    requires IsBatch(batch)
    ensures Flushed(style, Flushed(style, batch)) == Flushed(style, batch) && Flushable(style, Flushed(style, batch))
  {
    FlushLaws(style, batch);
  }

  /** Sorting twice is sorting once, and the second time never fails. */
  lemma {:induction false} SnippetIdempotent(style: Style, s: Snippet)
    ensures SortedSnippet(style, SortedSnippet(style, s)) == SortedSnippet(style, s)
    ensures SortableSnippet(style, SortedSnippet(style, s))
    decreases s, 1
  {
    if s.Block? {
      KidsIdempotent(style, s.kids, []);
    }
  }
}
