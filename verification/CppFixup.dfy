/**
 * --fixup of config/check_spidermonkey_style.py on whole files: read_file, sorted and to_source, and the same again on
 * the file that was written.
 */
module CppFixup {
  import opened Wrappers
  import opened CppSnippets
  import opened CppTrees
  import opened CppShapes
  import opened CppSorter
  import opened CppSorterLaws
  import opened Sorting

  // Sorting keeps the shape of a tree ---------------------------------------------------------------

  function AlongFrom(classify: Classifier, kids: seq<Snippet>, prev: Prev): Option<Prev> {
    if kids == [] then Some(prev)
    else match Follow(classify, kids[0], prev)
      case None => None
      case Some(next) => AlongFrom(classify, kids[1..], next)
  }

  lemma {:induction false} AlongFromSplit(classify: Classifier, a: seq<Snippet>, b: seq<Snippet>, prev: Prev)
    ensures AlongFrom(classify, a + b, prev) ==
      match AlongFrom(classify, a, prev)
        case None => None
        case Some(next) => AlongFrom(classify, b, next)
  {
    hide Follow;
    if a == [] {
      assert a + b == b;
    } else {
      assert (a + b)[1..] == a[1..] + b;
      if Follow(classify, a[0], prev).Some? {
        AlongFromSplit(classify, a[1..], b, Follow(classify, a[0], prev).value);
      }
    }
  }

  lemma {:induction false} AlongIsFrom(classify: Classifier, kids: seq<Snippet>)
    ensures AlongFrom(classify, kids, Neutral) == Along(classify, kids)
    decreases |kids|
  {
    hide Follow;
    if kids != [] {
      var init, last := kids[..|kids| - 1], kids[|kids| - 1];
      assert kids == init + [last];
      AlongIsFrom(classify, init);
      AlongFromSplit(classify, init, [last], Neutral);
      assert [last][1..] == [];
    }
  }

  lemma {:induction false} AllKidsOk(classify: Classifier, kids: seq<Snippet>, prev: Prev)
    requires AlongFrom(classify, kids, prev).Some?
    ensures forall i :: 0 <= i < |kids| ==> KidOk(classify, kids[i])
  {
    hide KidOk;
    if kids != [] {
      AllKidsOk(classify, kids[1..], Follow(classify, kids[0], prev).value);
      assert forall i :: 0 < i < |kids| ==> kids[i] == kids[1..][i - 1];
    }
  }

  /** Includes with blank lines between their sections. */
  lemma {:induction false} SeparatedFollow(classify: Classifier, style: Style, includes: seq<Include>, prev: Prev)
    requires includes != [] && !prev.AfterOpen? && classify("\n").OrdinaryLine?
    requires forall i :: 0 <= i < |includes| ==> KidOk(classify, Inc(includes[i]))
    ensures AlongFrom(classify, Separated(style, includes), prev) == Some(Neutral)
  {
    hide KidOk, Separated, AlongFrom;
    var first, rest := Inc(includes[0]), includes[1..];
    SeparatedHead(style, includes);
    BlankOk(classify);
    AlongFromNext(classify, first, [], prev);
    if rest == [] {
    } else {
      assert forall i :: 0 <= i < |rest| ==> rest[i] == includes[i + 1];
      SeparatedFollow(classify, style, rest, Neutral);
      SeparatedFollow(classify, style, rest, AfterCode);
      AlongFromNext(classify, first, Separated(style, rest), prev);
      AlongFromNext(classify, first, [BLANK_LINE] + Separated(style, rest), prev);
      AlongFromNext(classify, BLANK_LINE, Separated(style, rest), Neutral);
    }
  }

  lemma SeparatedHead(style: Style, includes: seq<Include>)
    requires includes != []
    ensures |includes| == 1 ==> Separated(style, includes) == [Inc(includes[0])] + []
    ensures |includes| > 1 ==>
      || Separated(style, includes) == [Inc(includes[0])] + Separated(style, includes[1..])
      || Separated(style, includes) == [Inc(includes[0])] + ([BLANK_LINE] + Separated(style, includes[1..]))
  {
  }

  lemma BlankOk(classify: Classifier)
    requires classify("\n").OrdinaryLine?
    ensures KidOk(classify, BLANK_LINE)
  {
  }

  /** An include or code, where it may stand. */
  lemma AlongFromNext(classify: Classifier, s: Snippet, rest: seq<Snippet>, prev: Prev)
    requires KidOk(classify, s) && !s.Block? && !prev.AfterOpen? && (s.Code? ==> prev.Neutral?)
    ensures AlongFrom(classify, [s] + rest, prev) == AlongFrom(classify, rest, NextPrev(s))
    ensures NextPrev(s) == (if s.Code? then AfterCode else Neutral) && AlongFrom(classify, [], Neutral) == Some(Neutral)
  {
    assert ([s] + rest)[1..] == rest;
  }

  /** A batch fits after the same things flushed or not, and the same things fit after it. */
  lemma FlushedFollow(classify: Classifier, style: Style, batch: seq<Snippet>, prev: Prev)
    requires IsBatch(batch) && AlongFrom(classify, batch, prev).Some? && classify("\n").OrdinaryLine?
    ensures AlongFrom(classify, Flushed(style, batch), prev) == AlongFrom(classify, batch, prev)
  {
    hide Follow, KidOk, AlongFrom, Separated, Sort, ByKey, Includes, Cutoff, IsBreaker, ShouldTry, InOrder;
    if ShouldTry(style, Includes(batch)) {
      var n, includes := Cutoff(batch), Includes(batch);
      var sorted := Sort(ByKey(style), includes);
      TriedParts(classify, style, batch, prev);
      AllKidsOk(classify, batch, prev);
      SortedIncludesOk(classify, style, batch);
      SeparatedFollow(classify, style, sorted, prev);
      assert batch == batch[..n] + batch[n..];
      AlongFromSplit(classify, batch[..n], batch[n..], prev);
      AlongFromSplit(classify, Separated(style, sorted), batch[n..], prev);
    }
  }

  lemma {:induction false} CutoffIs(batch: seq<Snippet>)
    ensures Cutoff(batch) > 0 ==> batch[Cutoff(batch) - 1].Inc?
    ensures Includes(batch) != [] ==> Cutoff(batch) > 0
  {
    if batch != [] {
      CutoffIs(batch[1..]);
    }
  }

  lemma TriedParts(classify: Classifier, style: Style, batch: seq<Snippet>, prev: Prev)
    requires IsBatch(batch) && AlongFrom(classify, batch, prev).Some? && ShouldTry(style, Includes(batch))
    ensures !prev.AfterOpen? && Includes(batch) != []
    ensures AlongFrom(classify, batch[..Cutoff(batch)], prev) == Some(Neutral)
  {
    hide KidOk, AlongFrom, Sort, ByKey, Includes, Cutoff;
    var n := Cutoff(batch);
    CutoffIs(batch);
    NothingToTry(style);
    assert batch[..n] == batch[..n - 1] + [batch[n - 1]] && batch == batch[..n] + batch[n..];
    AlongFromSplit(classify, batch[..n], batch[n..], prev);
    AlongFromSplit(classify, batch[..n - 1], [batch[n - 1]], prev);
    AlongFromHead(classify, batch, prev);
    assert !IsBreaker(batch[0]);
    IncludeComesAfter(classify, batch[n - 1], batch[..n - 1], prev);
  }

  lemma NothingToTry(style: Style)
    ensures !ShouldTry(style, [])
  {
  }

  lemma IncludeComesAfter(classify: Classifier, s: Snippet, before: seq<Snippet>, prev: Prev)
    requires s.Inc? && AlongFrom(classify, before, prev).Some?
    requires AlongFrom(classify, [s], AlongFrom(classify, before, prev).value).Some?
    ensures AlongFrom(classify, [s], AlongFrom(classify, before, prev).value) == Some(Neutral)
  {
    assert [s][1..] == [];
  }

  lemma SortedIncludesOk(classify: Classifier, style: Style, batch: seq<Snippet>)
    requires forall i :: 0 <= i < |batch| ==> KidOk(classify, batch[i])
    ensures var sorted := Sort(ByKey(style), Includes(batch));
      |sorted| == |Includes(batch)| && forall i :: 0 <= i < |sorted| ==> KidOk(classify, Inc(sorted[i]))
  {
    hide KidOk, Sort, ByKey;
    var includes := Includes(batch);
    var sorted := Sort(ByKey(style), includes);
    KeyOrder(style);
    SortKeeps(ByKey(style), includes);
    assert |multiset(sorted)| == |multiset(includes)|;
    forall i | 0 <= i < |sorted| ensures KidOk(classify, Inc(sorted[i])) {
      assert sorted[i] in multiset(sorted);
      FromBatch(batch, sorted[i]);
    }
  }

  lemma {:induction false} FromBatch(batch: seq<Snippet>, inc: Include)
    requires inc in Includes(batch)
    ensures exists i :: 0 <= i < |batch| && batch[i] == Inc(inc)
  {
    if batch[0] != Inc(inc) {
      FromBatch(batch[1..], inc);
      var i :| 0 <= i < |batch| - 1 && batch[1..][i] == Inc(inc);
      assert batch[i + 1] == Inc(inc);
    }
  }

  lemma {:induction false} SortedFollow(classify: Classifier, style: Style, kids: seq<Snippet>, batch: seq<Snippet>,
                                        prev: Prev)
    requires IsBatch(batch) && AlongFrom(classify, batch + kids, prev).Some? && classify("\n").OrdinaryLine?
    ensures AlongFrom(classify, SortedKids(style, kids, batch), prev) == AlongFrom(classify, batch + kids, prev)
    decreases kids, 0
  {
    hide Follow, AlongFrom, Flushed, IsBreaker, IsBatch;
    AlongFromSplit(classify, batch, kids, prev);
    FlushedFollow(classify, style, batch, prev);
    if kids == [] {
      assert batch + kids == batch;
    } else if IsBreaker(kids[0]) {
      var next := AlongFrom(classify, batch, prev).value;
      var s, rest := SortedSnippet(style, kids[0]), SortedKids(style, kids[1..], []);
      AlongFromHead(classify, kids, next);
      SnippetFollow(classify, style, kids[0], next);
      EmptyBatch();
      assert [] + kids[1..] == kids[1..];
      SortedFollow(classify, style, kids[1..], [], Follow(classify, kids[0], next).value);
      AlongFromSplit(classify, Flushed(style, batch), [s] + rest, prev);
      AlongFromHead(classify, [s] + rest, next);
      assert Flushed(style, batch) + [s] + rest == Flushed(style, batch) + ([s] + rest) && ([s] + rest)[1..] == rest;
    } else {
      LongerBatch(batch, kids[0]);
      assert batch + kids == (batch + [kids[0]]) + kids[1..];
      SortedFollow(classify, style, kids[1..], batch + [kids[0]], prev);
    }
  }

  lemma AlongFromHead(classify: Classifier, kids: seq<Snippet>, prev: Prev)
    requires kids != []
    ensures AlongFrom(classify, kids, prev) ==
      if Follow(classify, kids[0], prev).None? then None
      else AlongFrom(classify, kids[1..], Follow(classify, kids[0], prev).value)
  {
  }

  lemma {:induction false} SnippetFollow(classify: Classifier, style: Style, s: Snippet, prev: Prev)
    requires Follow(classify, s, prev).Some? && classify("\n").OrdinaryLine?
    ensures Follow(classify, SortedSnippet(style, s), prev) == Follow(classify, s, prev)
    decreases s, 1
  {
    hide AlongFrom, SortedKids, Along;
    if s.Block? {
      AlongSome(classify, s.kids);
      KidsComplete(classify, style, s.kids);
    }
  }

  lemma {:induction false} KidsComplete(classify: Classifier, style: Style, kids: seq<Snippet>)
    requires Complete(classify, kids) && classify("\n").OrdinaryLine?
    ensures Complete(classify, SortedKids(style, kids, []))
    decreases kids, 1
  {
    hide AlongFrom, SortedKids, Along;
    EmptyBatch();
    assert [] + kids == kids;
    AlongIsFrom(classify, kids);
    AlongIsFrom(classify, SortedKids(style, kids, []));
    SortedFollow(classify, style, kids, [], Neutral);
  }

  // Sorted trees stay as they are, whatever the line numbers ------------------------------------------

  /** No batch is to be sorted, at any depth. */
  predicate Settled(style: Style, kids: seq<Snippet>, batch: seq<Snippet>)
    decreases kids, 0
  {
    if kids == [] then !ShouldTry(style, Includes(batch))
    else if IsBreaker(kids[0]) then
      !ShouldTry(style, Includes(batch)) && SettledSnippet(style, kids[0]) && Settled(style, kids[1..], [])
    else Settled(style, kids[1..], batch + [kids[0]])
  }

  predicate SettledSnippet(style: Style, s: Snippet)
    decreases s, 1
  {
    s.Block? ==> Settled(style, s.kids, [])
  }

  lemma {:induction false} SettledAbsorbs(style: Style, batch: seq<Snippet>, more: seq<Snippet>, rest: seq<Snippet>)
    requires IsBatch(more)
    ensures Settled(style, more + rest, batch) == Settled(style, rest, batch + more)
    decreases |more|
  {
    if more == [] {
      assert more + rest == rest && batch + more == batch;
    } else {
      assert (more + rest)[1..] == more[1..] + rest;
      assert (batch + [more[0]]) + more[1..] == batch + more;
      SettledAbsorbs(style, batch + [more[0]], more[1..], rest);
    }
  }

  lemma {:induction false} SortedSettled(style: Style, kids: seq<Snippet>, batch: seq<Snippet>)
    requires IsBatch(batch)
    ensures Settled(style, SortedKids(style, kids, batch), [])
    decreases kids, 0
  {
    hide Flushed, IsBreaker, ShouldTry, IsBatch, Includes, InOrder;
    var f := Flushed(style, batch);
    FlushLaws(style, batch);
    assert [] + f == f;
    if kids == [] {
      SettledAbsorbs(style, [], f, []);
      assert f + [] == f;
    } else if IsBreaker(kids[0]) {
      var s, rest := SortedSnippet(style, kids[0]), SortedKids(style, kids[1..], []);
      SnippetSettled(style, kids[0]);
      EmptyBatch();
      SortedSettled(style, kids[1..], []);
      SortedStaysBreaker(style, kids[0]);
      SettledAbsorbs(style, [], f, [s] + rest);
      assert f + ([s] + rest) == f + [s] + rest && ([s] + rest)[1..] == rest;
    } else {
      LongerBatch(batch, kids[0]);
      SortedSettled(style, kids[1..], batch + [kids[0]]);
    }
  }

  lemma {:induction false} SnippetSettled(style: Style, s: Snippet)
    ensures SettledSnippet(style, SortedSnippet(style, s))
    decreases s, 1
  {
    hide SortedKids, Settled;
    if s.Block? {
      EmptyBatch();
      SortedSettled(style, s.kids, []);
    }
  }

  lemma {:induction false} SettledStays(style: Style, kids: seq<Snippet>, batch: seq<Snippet>)
    requires Settled(style, kids, batch)
    ensures SortedKids(style, kids, batch) == batch + kids && Sortable(style, kids, batch)
    decreases kids, 0
  {
    hide ShouldTry, IsBreaker, Includes;
    if kids == [] {
    } else if IsBreaker(kids[0]) {
      SettledSnippetStays(style, kids[0]);
      SettledStays(style, kids[1..], []);
      assert batch + [kids[0]] + ([] + kids[1..]) == batch + kids;
    } else {
      SettledStays(style, kids[1..], batch + [kids[0]]);
      assert (batch + [kids[0]]) + kids[1..] == batch + kids;
    }
  }

  lemma {:induction false} SettledSnippetStays(style: Style, s: Snippet)
    requires SettledSnippet(style, s)
    ensures SortedSnippet(style, s) == s && SortableSnippet(style, s)
    decreases s, 1
  {
    hide SortedKids, Settled;
    if s.Block? {
      SettledStays(style, s.kids, []);
      assert [] + s.kids == s.kids;
    }
  }

  /** Keys do not depend on line numbers. */
  ghost predicate NumberFree(style: Style) {
    forall a: Include, b: Include :: a.(linenum := 0) == b.(linenum := 0) ==> style.key(a) == style.key(b)
  }

  ghost predicate SameIncludes(a: seq<Include>, b: seq<Include>) {
    |a| == |b| && forall i :: 0 <= i < |a| ==> a[i].(linenum := 0) == b[i].(linenum := 0)
  }

  lemma {:induction false} AlikeIncludes(a: seq<Snippet>, b: seq<Snippet>)
    requires AllAlike(a, b)
    ensures SameIncludes(Includes(a), Includes(b))
  {
    if a != [] {
      assert Alike(a[0], b[0]);
      assert forall i :: 0 <= i < |a[1..]| ==> Alike(a[1..][i], b[1..][i]);
      AlikeIncludes(a[1..], b[1..]);
    }
  }

  lemma AlikeTry(style: Style, a: seq<Include>, b: seq<Include>)
    requires NumberFree(style) && SameIncludes(a, b) && !ShouldTry(style, a)
    ensures !ShouldTry(style, b)
  {
    hide KeyLess, Sort;
    if !style.exempt && a == Sort(ByKey(style), a) {
      KeyOrder(style);
      SortKeeps(ByKey(style), a);
      forall i, j | 0 <= i < j < |b| ensures !ByKey(style)(b[j], b[i]) {
        assert !ByKey(style)(a[j], a[i]);
        assert style.key(a[i]) == style.key(b[i]) && style.key(a[j]) == style.key(b[j]);
      }
      SortOfSorted(ByKey(style), b);
    } else if !style.exempt {
      var i :| 0 <= i < |a| && a[i].inclname in style.odd;
      assert a[i].(linenum := 0).inclname == b[i].(linenum := 0).inclname;
    }
  }

  lemma AlikeBreaker(a: Snippet, b: Snippet)
    requires Alike(a, b)
    ensures IsBreaker(a) == IsBreaker(b)
  {
  }

  lemma {:induction false} AlikeSettled(style: Style, kids: seq<Snippet>, batch: seq<Snippet>, kids': seq<Snippet>,
                                        batch': seq<Snippet>)
    requires NumberFree(style) && AllAlike(kids, kids') && AllAlike(batch, batch') && Settled(style, kids, batch)
    ensures Settled(style, kids', batch')
    decreases kids, 0
  {
    hide ShouldTry, IsBreaker, Includes, NumberFree, SameIncludes;
    if kids == [] {
      AlikeIncludes(batch, batch');
      AlikeTry(style, Includes(batch), Includes(batch'));
    } else {
      assert Alike(kids[0], kids'[0]);
      assert forall i :: 0 <= i < |kids[1..]| ==> Alike(kids[1..][i], kids'[1..][i]);
      AlikeBreaker(kids[0], kids'[0]);
      if IsBreaker(kids[0]) {
        AlikeIncludes(batch, batch');
        AlikeTry(style, Includes(batch), Includes(batch'));
        AlikeSettledSnippet(style, kids[0], kids'[0]);
        AlikeSettled(style, kids[1..], [], kids'[1..], []);
      } else {
        AlikeSettled(style, kids[1..], batch + [kids[0]], kids'[1..], batch' + [kids'[0]]);
      }
    }
  }

  lemma {:induction false} AlikeSettledSnippet(style: Style, s: Snippet, s': Snippet)
    requires NumberFree(style) && Alike(s, s') && SettledSnippet(style, s)
    ensures SettledSnippet(style, s')
    decreases s, 1
  {
    hide NumberFree, Settled;
    if s.Block? {
      assert AllAlike([], []);
      AlikeSettled(style, s.kids, [], s'.kids, []);
    }
  }

  // Lines of files ----------------------------------------------------------------------------------

  predicate Ended(line: string) {
    line != "" && IsLine(line) && line[|line| - 1] == '\n'
  }

  predicate AllEnded(lines: seq<string>) {
    forall i :: 0 <= i < |lines| ==> Ended(lines[i])
  }

  /** What iterating over a file yields: all lines but the last end in a newline. */
  predicate FileLines(lines: seq<string>) {
    && (forall i :: 0 <= i < |lines| ==> lines[i] != "" && IsLine(lines[i]))
    && forall i :: 0 <= i < |lines| - 1 ==> Ended(lines[i])
  }

  lemma FileLinesSplit(a: seq<string>, b: seq<string>)
    ensures FileLines(a + b) <==> if b == [] then FileLines(a) else AllEnded(a) && FileLines(b)
  {
    if b == [] {
      assert a + b == a;
    } else {
      assert forall i :: 0 <= i < |a| ==> (a + b)[i] == a[i];
      assert forall i :: 0 <= i < |b| ==> (a + b)[|a| + i] == b[i];
      if FileLines(a + b) {
        assert AllEnded(a);
        forall i | 0 <= i < |b| - 1 ensures Ended(b[i]) {
          assert Ended((a + b)[|a| + i]);
        }
      }
    }
  }

  lemma AllEndedSplit(a: seq<string>, b: seq<string>)
    ensures AllEnded(a + b) <==> AllEnded(a) && AllEnded(b)
    ensures AllEnded(a) ==> FileLines(a)
  {
    assert forall i :: 0 <= i < |a| ==> (a + b)[i] == a[i];
    assert forall i :: 0 <= i < |b| ==> (a + b)[|a| + i] == b[i];
  }

  /** b can take the place of a among the lines of a file. */
  ghost predicate Refits(a: seq<string>, b: seq<string>) {
    && (b != [] ==> a != [])
    && (FileLines(a) ==> FileLines(b))
    && (AllEnded(a) ==> AllEnded(b))
  }

  lemma RefitsJoined(a: seq<string>, b: seq<string>, c: seq<string>, d: seq<string>)
    requires Refits(a, b) && Refits(c, d)
    ensures Refits(a + c, b + d)
  {
    hide FileLines, AllEnded;
    FileLinesSplit(a, c);
    FileLinesSplit(b, d);
    AllEndedSplit(a, c);
    AllEndedSplit(b, d);
  }

  lemma RefitsSelf(a: seq<string>)
    ensures Refits(a, a)
  {
  }

  lemma {:induction false} SeparatedEnded(style: Style, includes: seq<Include>)
    requires forall i :: 0 <= i < |includes| ==> Ended(includes[i].ToSource())
    ensures AllEnded(KidsLines(Separated(style, includes)))
  {
    hide Separated, KidsLines, Include.ToSource;
    if includes == [] {
      NoLines(style);
    } else {
      var first, rest := Inc(includes[0]), includes[1..];
      assert forall i :: 0 <= i < |rest| ==> rest[i] == includes[i + 1];
      SeparatedEnded(style, rest);
      SeparatedHead(style, includes);
      NextLines(first, Separated(style, rest));
      NextLines(first, [BLANK_LINE] + Separated(style, rest));
      NextLines(BLANK_LINE, Separated(style, rest));
      NextLines(first, []);
      NoLines(style);
      AllEndedSplit([includes[0].ToSource()], KidsLines(Separated(style, rest)));
      AllEndedSplit(["\n"], KidsLines(Separated(style, rest)));
      AllEndedSplit([includes[0].ToSource()], KidsLines([BLANK_LINE] + Separated(style, rest)));
      AllEndedSplit([includes[0].ToSource()], []);
    }
  }

  lemma NextLines(s: Snippet, rest: seq<Snippet>)
    ensures KidsLines([s] + rest) == SnippetLines(s) + KidsLines(rest)
  {
    assert ([s] + rest)[1..] == rest;
  }

  lemma NoLines(style: Style)
    ensures KidsLines([]) == [] && Separated(style, []) == [] && AllEnded([]) && Ended("\n")
  {
  }

  /** The text of an include ends in a newline; it is a line if it is one of the lines of a file. */
  lemma {:induction false} IncludesEnded(kids: seq<Snippet>, inc: Include)
    requires FileLines(KidsLines(kids)) && inc in Includes(kids)
    ensures Ended(inc.ToSource())
  {
    hide Include.ToSource;
    assert kids == [kids[0]] + kids[1..];
    NextLines(kids[0], kids[1..]);
    FileLinesSplit(SnippetLines(kids[0]), KidsLines(kids[1..]));
    if kids[0] == Inc(inc) {
      assert SnippetLines(kids[0]) == [inc.ToSource()];
      AllEndedSplit([inc.ToSource()], []);
      assert FileLines([inc.ToSource()]);
      assert [inc.ToSource()][0] == inc.ToSource();
      SourceEnds(inc);
    } else {
      NoFileLines();
      IncludesEnded(kids[1..], inc);
    }
  }

  lemma NoFileLines()
    ensures FileLines([])
  {
  }

  lemma SourceEnds(inc: Include)
    ensures inc.ToSource() != "" && inc.ToSource()[|inc.ToSource()| - 1] == '\n'
  {
  }

  lemma FlushedRefits(style: Style, batch: seq<Snippet>)
    requires IsBatch(batch)
    ensures Refits(KidsLines(batch), KidsLines(Flushed(style, batch)))
  {
    hide KidsLines, Separated, Sort, ByKey, Includes, Cutoff, IsBreaker, ShouldTry, InOrder, Refits, FileLines, IsBatch;
    RefitsSelf(KidsLines(batch));
    if ShouldTry(style, Includes(batch)) {
      var n := Cutoff(batch);
      var sorted := Sort(ByKey(style), Includes(batch));
      assert batch == batch[..n] + batch[n..];
      TriedRefits(style, batch);
      RefitsSelf(KidsLines(batch[n..]));
      KidsLinesSplit(batch[..n], batch[n..]);
      KidsLinesSplit(Separated(style, sorted), batch[n..]);
      RefitsJoined(KidsLines(batch[..n]), KidsLines(Separated(style, sorted)), KidsLines(batch[n..]),
        KidsLines(batch[n..]));
    }
  }

  lemma TriedRefits(style: Style, batch: seq<Snippet>)
    requires IsBatch(batch) && ShouldTry(style, Includes(batch))
    ensures Refits(KidsLines(batch[..Cutoff(batch)]), KidsLines(Separated(style, Sort(ByKey(style), Includes(batch)))))
  {
    hide KidsLines, Separated, Sort, ByKey, Includes, Cutoff, IsBreaker, FileLines, Include.ToSource;
    var n := Cutoff(batch);
    var front, sorted := batch[..n], Sort(ByKey(style), Includes(batch));
    TriedFront(style, batch);
    KeyOrder(style);
    SortKeeps(ByKey(style), Includes(batch));
    AllEndedSplit(KidsLines(front), []);
    if FileLines(KidsLines(front)) {
      forall i | 0 <= i < |sorted| ensures Ended(sorted[i].ToSource()) {
        assert sorted[i] in multiset(sorted);
        IncludesEnded(front, sorted[i]);
      }
      SeparatedEnded(style, sorted);
      AllEndedSplit(KidsLines(Separated(style, sorted)), []);
    }
  }

  /** Up to the last include: all includes, and some line. */
  lemma TriedFront(style: Style, batch: seq<Snippet>)
    requires ShouldTry(style, Includes(batch))
    ensures Includes(batch[..Cutoff(batch)]) == Includes(batch) && KidsLines(batch[..Cutoff(batch)]) != []
  {
    var n := Cutoff(batch);
    CutoffIs(batch);
    assert Sort(ByKey(style), []) == [];
    hide Sort, ByKey, Includes, Cutoff, KidsLines;
    assert batch == batch[..n] + batch[n..] && batch[..n] == batch[..n - 1] + [batch[n - 1]];
    NoIncludeAfterCutoff(batch);
    IncludesSplit(batch[..n], batch[n..]);
    KidsLinesSnoc(batch[..n - 1], batch[n - 1]);
  }

  lemma {:induction false} SortedRefits(style: Style, kids: seq<Snippet>, batch: seq<Snippet>)
    requires IsBatch(batch)
    ensures Refits(KidsLines(batch + kids), KidsLines(SortedKids(style, kids, batch)))
    decreases kids, 0
  {
    hide KidsLines, Flushed, IsBreaker, IsBatch, Refits, SnippetLines;
    FlushedRefits(style, batch);
    if kids == [] {
      assert batch + kids == batch;
    } else if IsBreaker(kids[0]) {
      var f, s, rest := Flushed(style, batch), SortedSnippet(style, kids[0]), SortedKids(style, kids[1..], []);
      SnippetRefits(style, kids[0]);
      EmptyBatch();
      SortedRefits(style, kids[1..], []);
      assert [] + kids[1..] == kids[1..] && kids == [kids[0]] + kids[1..] && f + [s] + rest == f + ([s] + rest);
      KidsLinesSplit(batch, kids);
      KidsLinesSplit(f, [s] + rest);
      NextLines(kids[0], kids[1..]);
      NextLines(s, rest);
      RefitsJoined(SnippetLines(kids[0]), SnippetLines(s), KidsLines(kids[1..]), KidsLines(rest));
      RefitsJoined(KidsLines(batch), KidsLines(f), KidsLines(kids), KidsLines([s] + rest));
    } else {
      LongerBatch(batch, kids[0]);
      SortedRefits(style, kids[1..], batch + [kids[0]]);
      assert batch + kids == (batch + [kids[0]]) + kids[1..];
    }
  }

  lemma {:induction false} SnippetRefits(style: Style, s: Snippet)
    ensures Refits(SnippetLines(s), SnippetLines(SortedSnippet(style, s)))
    decreases s, 1
  {
    hide KidsLines, Refits, SortedKids;
    RefitsSelf(SnippetLines(s));
    if s.Block? {
      EmptyBatch();
      SortedRefits(style, s.kids, []);
      assert [] + s.kids == s.kids;
      RefitsSelf([s.start]);
      RefitsSelf(EndLine(s.end));
      RefitsJoined([s.start], [s.start], KidsLines(s.kids), KidsLines(SortedKids(style, s.kids, [])));
      RefitsJoined([s.start] + KidsLines(s.kids), [s.start] + KidsLines(SortedKids(style, s.kids, [])),
        EndLine(s.end), EndLine(s.end));
    }
  }

  // Text and its lines ------------------------------------------------------------------------------

  /** The length of the first line, with its newline. */
  function FirstLine(text: string): (n: nat)
    requires text != ""
    ensures 0 < n <= |text|
  {
    if text[0] == '\n' || |text| == 1 then 1 else 1 + FirstLine(text[1..])
  }

  /** What iterating over a file with this text yields. */
  function SplitLines(text: string): seq<string> {
    if text == "" then [] else [text[..FirstLine(text)]] + SplitLines(text[FirstLine(text)..])
  }

  lemma {:induction false} FirstLineIs(line: string, rest: string)
    requires line != "" && IsLine(line) && (rest != "" ==> Ended(line))
    ensures FirstLine(line + rest) == |line|
  {
    assert (line + rest)[0] == line[0];
    if |line| == 1 {
    } else {
      assert line[0] != '\n' && (line + rest)[1..] == line[1..] + rest;
      FirstLineIs(line[1..], rest);
    }
  }

  /** The lines of a file are what its text is split into. */
  lemma {:induction false} SplitIsLines(lines: seq<string>)
    requires FileLines(lines)
    ensures SplitLines(Concat(lines)) == lines
  {
    if lines != [] {
      var rest := Concat(lines[1..]);
      SplitIsLines(lines[1..]);
      ConcatEmpty(lines[1..]);
      FirstLineIs(lines[0], rest);
      assert (lines[0] + rest)[..|lines[0]|] == lines[0] && (lines[0] + rest)[|lines[0]|..] == rest;
    }
  }

  lemma ConcatEmpty(lines: seq<string>)
    ensures Concat(lines) != "" ==> lines != []
  {
  }

  /** An #include line of a file is written as a line. */
  lemma LineReadEnded(classify: Classifier, line: string)
    requires Faithful(classify) && SuffixesStop(classify) && line != "" && IsLine(line)
    ensures |LinesRead(classify(line), line)| == 1
    ensures var read := LinesRead(classify(line), line)[0];
      read != "" && IsLine(read) && (Ended(line) ==> Ended(read))
  {
    hide AsInclude, Include.ToSource;
    if classify(line).IncludeLine? {
      var source := AsInclude(classify(line), 0).ToSource();
      SourceEnds(AsInclude(classify(line), 0));
      assert source == line || source == line + "\n";
    }
  }

  lemma {:induction false} LinesReadFile(classify: Classifier, lines: seq<string>)
    requires Faithful(classify) && SuffixesStop(classify) && FileLines(lines)
    ensures FileLines(LinesReadFrom(classify, lines))
  {
    hide Faithful, SuffixesStop, LinesRead;
    if lines != [] {
      LineReadEnded(classify, lines[0]);
      LinesReadFile(classify, lines[1..]);
      FileLinesSplit(LinesRead(classify(lines[0]), lines[0]), LinesReadFrom(classify, lines[1..]));
    }
  }

  // --fixup -----------------------------------------------------------------------------------------

  /** The text --fixup writes for a file, if it is balanced and can be sorted. */
  function FixedUp(classify: Classifier, style: Style, lines: seq<string>): Option<string> {
    match FileTree(classify, lines)
    case None => None
    case Some(tree) => if SortableSnippet(style, tree) then Some(ToSource(SortedSnippet(style, tree))) else None
  }

  /** What the argument needs of the regular expressions. */
  ghost predicate Regular(classify: Classifier) {
    && Faithful(classify) && SuffixesStop(classify) && classify("\n").OrdinaryLine?
    && forall line :: line != "" && IsLine(line) ==> Rereads(classify, line)
  }

  /** A file that --fixup has written, as a tree and as lines. */
  lemma FixedUpTree(classify: Classifier, style: Style, lines: seq<string>)
    requires Regular(classify) && FileLines(lines) && FixedUp(classify, style, lines).Some?
    ensures
      var sorted := SortedKids(style, FileTree(classify, lines).value.kids, []);
      var text := FixedUp(classify, style, lines).value;
      && Complete(classify, sorted) && Settled(style, sorted, []) && text == KidsSource(sorted)
      && SplitLines(text) == KidsLines(sorted)
  {
    hide FileTree, Complete, Settled, KidsLines, SortedKids, Sortable, Rereads, SplitLines, Faithful, SuffixesStop;
    var kids := FileTree(classify, lines).value.kids;
    var sorted := SortedKids(style, kids, []);
    TreeOk(classify, lines);
    KidsComplete(classify, style, kids);
    EmptyBatch();
    SortedSettled(style, kids, []);
    assert [] + kids == kids;
    FixedUpText(classify, style, lines);
    TreeLines(classify, lines);
    LinesReadFile(classify, lines);
    SortedRefits(style, kids, []);
    SplitIsLines(KidsLines(sorted));
    KidsText(sorted);
  }

  lemma FixedUpText(classify: Classifier, style: Style, lines: seq<string>)
    requires FileTree(classify, lines).Some? && SortableSnippet(style, FileTree(classify, lines).value)
    ensures var tree := FileTree(classify, lines).value;
      && tree == Block("", tree.kids, "")
      && ToSource(SortedSnippet(style, tree)) == KidsSource(SortedKids(style, tree.kids, []))
      && FixedUp(classify, style, lines) == Some(KidsSource(SortedKids(style, tree.kids, [])))
  {
    hide SortedKids, Sortable, ReadOn, KidsSource;
    var source := KidsSource(SortedKids(style, FileTree(classify, lines).value.kids, []));
    assert "" + source + "" == source;
  }

  /** Running --fixup on a file it has written writes the same text again. */
  lemma FixupTwice(classify: Classifier, style: Style, lines: seq<string>)
    requires Regular(classify) && NumberFree(style) && FileLines(lines) && FixedUp(classify, style, lines).Some?
    ensures
      var text := FixedUp(classify, style, lines).value;
      FixedUp(classify, style, SplitLines(text)) == Some(text)
  {
    hide FileTree, Complete, Settled, KidsLines, SortedKids, Sortable, SplitLines, Regular, NumberFree, AllAlike;
    var text := FixedUp(classify, style, lines).value;
    FixedUpTree(classify, style, lines);
    var sorted := SortedKids(style, FileTree(classify, lines).value.kids, []);
    var again := RereadFile(classify, sorted);
    NothingAlike();
    AlikeSettled(style, sorted, [], again, []);
    SettledStays(style, again, []);
    assert [] + again == again;
    AllAlikeSource(sorted, again);
    FixedUpText(classify, style, KidsLines(sorted));
  }

  lemma NothingAlike()
    ensures AllAlike([], [])
  {
  }
}
