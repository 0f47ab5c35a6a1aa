/** CppBlock.sorted of config/check_spidermonkey_style.py: the --fixup rearrangement of #include lines. */
module CppSorter {
  import opened Wrappers
  import opened Sequences
  import opened Sorting
  import opened CppSnippets

  /** (section, lower-case name). */
  type Key = (nat, string)

  /** What sorting depends on besides the block: the keys, the oddly ordered names, and whether the file is exempt. */
  datatype Style = Style(key: Include -> Key, odd: set<string>, exempt: bool)

  datatype Failure = TypeError

  predicate KeyLess(a: Key, b: Key) {
    a.0 < b.0 || (a.0 == b.0 && StringLess()(a.1, b.1))
  }

  function ByKey(style: Style): (Include, Include) -> bool {
    (a: Include, b: Include) => KeyLess(style.key(a), style.key(b))
  }

  lemma KeyOrder(style: Style)
    ensures StrictWeak(ByKey(style))
    ensures forall a, b :: style.key(a) != style.key(b) ==> ByKey(style)(a, b) || ByKey(style)(b, a)
  {
    StringOrder();
    PairOrder(StringLess(), style);
  }

  lemma PairOrder(less: (string, string) -> bool, style: Style)
    requires StrictTotal(less) && less == StringLess()
    ensures StrictWeak(ByKey(style))
    ensures forall a, b :: style.key(a) != style.key(b) ==> ByKey(style)(a, b) || ByKey(style)(b, a)
  {
    hide StringLess;
    forall x, y, z | ByKey(style)(x, y) && ByKey(style)(y, z)
      ensures ByKey(style)(x, z)
    {
      var a, b, c := style.key(x), style.key(y), style.key(z);
      if a.0 == b.0 == c.0 {
        assert less(a.1, b.1) && less(b.1, c.1);
      }
    }
    forall x, y, z | ByKey(style)(x, z)
      ensures ByKey(style)(x, y) || ByKey(style)(y, z)
    {
      var a, b, c := style.key(x), style.key(y), style.key(z);
      if a.0 == b.0 == c.0 {
        assert less(a.1, b.1) || less(b.1, c.1);
      }
    }
    forall a, b | style.key(a) != style.key(b)
      ensures ByKey(style)(a, b) || ByKey(style)(b, a)
    {
      if style.key(a).0 == style.key(b).0 {
        assert style.key(a).1 != style.key(b).1;
      }
    }
  }

  // Batches -----------------------------------------------------------------------------------------

  /** str.isspace over the ASCII range: not empty, and white space throughout. */
  predicate IsSpace(s: string) {
    s != [] && forall i :: 0 <= i < |s| ==> IsSpaceChar(s[i])
  }

  predicate IsBlank(s: Snippet) {
    s.Code? && IsSpace(Concat(s.lines))
  }

  /** Non-blank code and nested blocks end a batch. */
  predicate IsBreaker(s: Snippet) {
    s.Block? || (s.Code? && !IsBlank(s))
  }

  function Includes(batch: seq<Snippet>): seq<Include> {
    if batch == [] then []
    else (if batch[0].Inc? then [batch[0].inc] else []) + Includes(batch[1..])
  }

  /** The index after the last include. */
  function Cutoff(batch: seq<Snippet>): (n: nat)
    ensures n <= |batch|
  {
    if batch == [] then 0
    else
      var n := Cutoff(batch[1..]);
      if n > 0 || batch[0].Inc? then n + 1 else 0
  }

  predicate ShouldTry(style: Style, includes: seq<Include>) {
    && !style.exempt
    && (forall i :: 0 <= i < |includes| ==> includes[i].inclname !in style.odd)
    && includes != Sort(ByKey(style), includes)
  }

  const BLANK_LINE: Snippet := Code(["\n"])

  function AsSnippets(includes: seq<Include>): seq<Snippet> {
    seq(|includes|, i requires 0 <= i < |includes| => Inc(includes[i]))
  }

  /** The includes, with a blank line wherever the section changes. */
  function Separated(style: Style, includes: seq<Include>): seq<Snippet> {
    if includes == [] then []
    else if |includes| > 1 && style.key(includes[0]).0 != style.key(includes[1]).0 then
      [Inc(includes[0]), BLANK_LINE] + Separated(style, includes[1..])
    else [Inc(includes[0])] + Separated(style, includes[1..])
  }

  /** What flush_batch moves to the output. */
  function Flushed(style: Style, batch: seq<Snippet>): seq<Snippet> {
    var includes := Includes(batch);
    if ShouldTry(style, includes)
    then Separated(style, Sort(ByKey(style), includes)) + batch[Cutoff(batch)..]
    else batch
  }

  // Sorting pairs of a key and an Include -----------------------------------------------------------

  /** Comparing two pairs: with equal keys, Python goes on to compare the Include objects, which have no order. */
  function PairLess(style: Style, a: Include, b: Include): Result<bool, Failure> {
    if style.key(a) == style.key(b) then Err(TypeError) else Ok(KeyLess(style.key(a), style.key(b)))
  }

  function InsertPair(style: Style, x: Include, s: seq<Include>): Result<seq<Include>, Failure> {
    if s == [] then Ok([x])
    else match PairLess(style, s[0], x)
      case Err(e) => Err(e)
      case Ok(false) => Ok([x] + s)
      case Ok(true) =>
        match InsertPair(style, x, s[1..])
        case Err(e) => Err(e)
        case Ok(rest) => Ok([s[0]] + rest)
  }

  /** Sorting the pairs by insertion; the first comparison that fails ends it. */
  function SortPairs(style: Style, s: seq<Include>): Result<seq<Include>, Failure> {
    if s == [] then Ok([])
    else match SortPairs(style, s[1..])
      case Err(e) => Err(e)
      case Ok(rest) => InsertPair(style, s[0], rest)
  }

  /** Into a sorted sequence, an element is inserted without failing exactly if its key is new. */
  lemma {:induction false} InsertPairIff(style: Style, x: Include, s: seq<Include>)
    requires InOrder(ByKey(style), s) && DistinctKeys(style, s)
    ensures InsertPair(style, x, s).Ok? <==> forall y :: y in s ==> style.key(y) != style.key(x)
    ensures InsertPair(style, x, s).Ok? ==> InsertPair(style, x, s).value == Insert(ByKey(style), x, s)
  {
    KeyOrder(style);
    hide KeyLess, StrictWeak;
    if s != [] {
      assert s == [s[0]] + s[1..];
      assert forall y :: y in s <==> y == s[0] || y in s[1..];
      if ByKey(style)(s[0], x) {
        InsertPairIff(style, x, s[1..]);
      } else if style.key(s[0]) != style.key(x) {
        BelowAll(style, x, s);
      }
    }
  }

  lemma BelowAll(style: Style, x: Include, s: seq<Include>)
    requires InOrder(ByKey(style), s) && s != [] && !ByKey(style)(s[0], x) && style.key(s[0]) != style.key(x)
    ensures forall y :: y in s ==> style.key(y) != style.key(x)
  {
    KeyOrder(style);
    forall y | y in s ensures style.key(y) != style.key(x) {
      var i :| 0 <= i < |s| && s[i] == y;
      assert ByKey(style)(x, s[0]);
    }
  }

  /** Sorting pairs succeeds exactly if no two keys are equal, and then sorts by key. */
  lemma {:induction false} SortPairsIff(style: Style, s: seq<Include>)
    ensures SortPairs(style, s).Ok? <==> DistinctKeys(style, s)
    ensures SortPairs(style, s).Ok? ==> SortPairs(style, s).value == Sort(ByKey(style), s)
  {
    hide InOrder, KeyLess, ByKey;
    if s != [] {
      SortPairsIff(style, s[1..]);
      var rest := Sort(ByKey(style), s[1..]);
      if DistinctKeys(style, s[1..]) {
        KeyOrder(style);
        SortKeeps(ByKey(style), s[1..]);
        PermutedDistinct(style, s[1..], rest);
        InsertPairIff(style, s[0], rest);
        assert forall y :: y in rest <==> y in multiset(rest);
        assert forall y :: y in s[1..] <==> y in multiset(s[1..]);
        HeadKeyNew(style, s);
      }
    }
  }

  lemma HeadKeyNew(style: Style, s: seq<Include>)
    requires s != []
    ensures DistinctKeys(style, s) <==>
      DistinctKeys(style, s[1..]) && forall y :: y in s[1..] ==> style.key(y) != style.key(s[0])
  {
    if DistinctKeys(style, s) {
      forall y | y in s[1..] ensures style.key(y) != style.key(s[0]) {
        var i :| 0 <= i < |s| - 1 && s[1..][i] == y;
        assert s[i + 1] == y;
      }
    } else if DistinctKeys(style, s[1..]) {
      var i, j :| 0 <= i < j < |s| && style.key(s[i]) == style.key(s[j]);
      assert i == 0;
      assert s[1..][j - 1] == s[j];
    }
  }

  lemma PermutedDistinct(style: Style, a: seq<Include>, b: seq<Include>)
    requires multiset(a) == multiset(b) && DistinctKeys(style, a)
    ensures DistinctKeys(style, b)
  {
    forall i, j | 0 <= i < j < |b|
      ensures style.key(b[i]) != style.key(b[j])
    {
      assert b[i] in multiset(a) && b[j] in multiset(a);
      if style.key(b[i]) == style.key(b[j]) {
        var p :| 0 <= p < |a| && a[p] == b[i];
        var q :| 0 <= q < |a| && a[q] == b[j];
        DuplicateCounts(b, i, j);
        CountedOnce(a, p);
        assert false;
      }
    }
  }

  predicate DistinctKeys(style: Style, includes: seq<Include>) {
    forall i, j :: 0 <= i < j < |includes| ==> style.key(includes[i]) != style.key(includes[j])
  }

  /** A batch fails exactly if it is to be sorted and two of its includes have the same key. */
  predicate Flushable(style: Style, batch: seq<Snippet>) {
    ShouldTry(style, Includes(batch)) ==> DistinctKeys(style, Includes(batch))
  }

  // Blocks ------------------------------------------------------------------------------------------

  function SortedKids(style: Style, kids: seq<Snippet>, batch: seq<Snippet>): seq<Snippet>
    decreases kids, 0
  {
    if kids == [] then Flushed(style, batch)
    else if IsBreaker(kids[0]) then
      Flushed(style, batch) + [SortedSnippet(style, kids[0])] + SortedKids(style, kids[1..], [])
    else SortedKids(style, kids[1..], batch + [kids[0]])
  }

  /** A block sorted; other snippets as they are. */
  function SortedSnippet(style: Style, s: Snippet): (r: Snippet)
    ensures r.Block? == s.Block? && (!s.Block? ==> r == s)
    decreases s, 1
  {
    match s
    case Block(start, kids, end) => Block(start, SortedKids(style, kids, []), end)
    case _ => s
  }

  /** No batch that sorting attempts has two includes with the same key, at any depth. */
  predicate Sortable(style: Style, kids: seq<Snippet>, batch: seq<Snippet>)
    decreases kids, 0
  {
    if kids == [] then Flushable(style, batch)
    else if IsBreaker(kids[0]) then
      Flushable(style, batch) && SortableSnippet(style, kids[0]) && Sortable(style, kids[1..], [])
    else Sortable(style, kids[1..], batch + [kids[0]])
  }

  predicate SortableSnippet(style: Style, s: Snippet)
    decreases s, 1
  {
    s.Block? ==> Sortable(style, s.kids, [])
  }

  // The program -------------------------------------------------------------------------------------

  method FlushBatch(style: Style, batch: seq<Snippet>) returns (r: Result<seq<Snippet>, Failure>)
    ensures r.Ok? <==> Flushable(style, batch)
    ensures r.Ok? ==> r.value == Flushed(style, batch)
  {
    var includes := [];
    var cutoff := 0;
    for i := 0 to |batch|
      invariant includes == Includes(batch[..i]) && cutoff == Cutoff(batch[..i])
    {
      IncludesSnoc(batch[..i], batch[i]);
      assert batch[..i + 1] == batch[..i] + [batch[i]];
      if batch[i].Inc? {
        includes := includes + [batch[i].inc];
        cutoff := i + 1;
      }
    }
    assert batch[..|batch|] == batch;
    if !ShouldTry(style, includes) {
      return Ok(batch);
    }
    KeysSortedIff(style, includes);
    var pretty := PrettySorted(style, includes);
    match pretty
    case Err(failure) => r := Err(failure);
    case Ok(output) => r := Ok(output + batch[cutoff..]);
  }

  function Keys(style: Style, includes: seq<Include>): (r: seq<Key>)
    ensures |r| == |includes| && forall i :: 0 <= i < |r| ==> r[i] == style.key(includes[i])
  {
    seq(|includes|, i requires 0 <= i < |includes| => style.key(includes[i]))
  }

  function KeyBefore(): (Key, Key) -> bool {
    (a: Key, b: Key) => KeyLess(a, b)
  }

  /** sorted(keys) == keys. */
  predicate KeysSorted(style: Style, includes: seq<Include>) {
    Sort(KeyBefore(), Keys(style, includes)) == Keys(style, includes)
  }

  lemma KeyBeforeWeak()
    ensures StrictWeak(KeyBefore())
  {
    StringOrder();
    hide StringLess;
  }

  lemma KeysSortedIff(style: Style, includes: seq<Include>)
    ensures KeysSorted(style, includes) <==> Sort(ByKey(style), includes) == includes
  {
    hide StrictWeak, KeyLess;
    KeyOrder(style);
    KeyBeforeWeak();
    SortKeeps(KeyBefore(), Keys(style, includes));
    SortKeeps(ByKey(style), includes);
    if KeysSorted(style, includes) {
      assert InOrder(ByKey(style), includes);
      SortOfSorted(ByKey(style), includes);
    } else if InOrder(ByKey(style), includes) {
      SortOfSorted(KeyBefore(), Keys(style, includes));
    }
  }

  /** Includes whose keys are in order come back as they are; others sorted, with sections set apart, or not at all. */
  method PrettySorted(style: Style, includes: seq<Include>) returns (r: Result<seq<Snippet>, Failure>)
    ensures KeysSorted(style, includes) ==> r == Ok(AsSnippets(includes))
    ensures !KeysSorted(style, includes) ==>
      && (r.Ok? <==> DistinctKeys(style, includes))
      && (r.Ok? ==> r.value == Separated(style, Sort(ByKey(style), includes)))
  {
    hide Sort, ByKey, Separated, SeparatedFrom, KeysSorted, SortPairs;
    if KeysSorted(style, includes) {
      return Ok(AsSnippets(includes));
    }
    SortPairsIff(style, includes);
    var pairs := SortPairs(style, includes);
    if pairs.Err? {
      return Err(TypeError);
    }
    var sorted := pairs.value;
    var output: seq<Snippet> := [];
    SeparatedEnds(style, sorted);
    for i := 0 to |sorted|
      invariant output + SeparatedFrom(style, sorted, i) == Separated(style, sorted)
    {
      SeparatedStep(style, sorted, i);
      ghost var before, blank := output, if i > 0 && style.key(sorted[i]).0 != style.key(sorted[i - 1]).0
                                         then [BLANK_LINE] else [];
      if i > 0 && style.key(sorted[i]).0 != style.key(sorted[i - 1]).0 {
        output := output + [BLANK_LINE];
      }
      output := output + [Inc(sorted[i])];
      assert output == before + (blank + [Inc(sorted[i])]);
    }
    assert output + [] == output;
    r := Ok(output);
  }

  lemma SeparatedEnds(style: Style, includes: seq<Include>)
    ensures SeparatedFrom(style, includes, 0) == Separated(style, includes)
    ensures SeparatedFrom(style, includes, |includes|) == []
    ensures [] + Separated(style, includes) == Separated(style, includes)
  {
    assert includes[0..] == includes;
  }

  method SortBlock(style: Style, block: Snippet) returns (r: Result<Snippet, Failure>)
    requires block.Block?
    ensures r.Ok? <==> SortableSnippet(style, block)
    ensures r.Ok? ==> r.value == SortedSnippet(style, block)
    decreases block, 1
  {
    hide Flushed, Flushable, IsBreaker, ShouldTry;
    var output, batch: seq<Snippet> := [], [];
    var kids := block.kids;
    for i := 0 to |kids|
      invariant Sortable(style, kids, []) <==> Sortable(style, kids[i..], batch)
      invariant SortedKids(style, kids, []) == output + SortedKids(style, kids[i..], batch)
    {
      assert kids[i..][1..] == kids[i + 1..];
      if IsBreaker(kids[i]) {
        var flushed := FlushBatch(style, batch);
        if flushed.Err? {
          return Err(TypeError);
        }
        output := output + flushed.value;
        batch := [];
        if kids[i].Block? {
          var kid := SortBlock(style, kids[i]);
          if kid.Err? {
            return Err(TypeError);
          }
          output := output + [kid.value];
        } else {
          output := output + [kids[i]];
        }
      } else {
        batch := batch + [kids[i]];
      }
    }
    var flushed := FlushBatch(style, batch);
    if flushed.Err? {
      return Err(TypeError);
    }
    return Ok(Block(block.start, output + flushed.value, block.end));
  }

  lemma IncludesSnoc(batch: seq<Snippet>, s: Snippet)
    ensures Includes(batch + [s]) == Includes(batch) + (if s.Inc? then [s.inc] else [])
    ensures Cutoff(batch + [s]) == if s.Inc? then |batch| + 1 else Cutoff(batch)
  {
    hide *;
    IncludesAtEnd(batch, s);
    CutoffAtEnd(batch, s);
  }

  lemma {:induction false} IncludesSplit(a: seq<Snippet>, b: seq<Snippet>)
    ensures Includes(a + b) == Includes(a) + Includes(b)
  {
    hide Includes;
    if a == [] {
      assert a + b == b;
      IncludesHead(a);
      assert [] + Includes(b) == Includes(b);
    } else {
      var first := if a[0].Inc? then [a[0].inc] else [];
      assert (a + b)[0] == a[0] && (a + b)[1..] == a[1..] + b;
      IncludesSplit(a[1..], b);
      IncludesHead(a);
      IncludesHead(a + b);
      assert first + (Includes(a[1..]) + Includes(b)) == (first + Includes(a[1..])) + Includes(b);
    }
  }

  lemma IncludesHead(batch: seq<Snippet>)
    ensures batch == [] ==> Includes(batch) == []
    ensures batch != [] ==> Includes(batch) == (if batch[0].Inc? then [batch[0].inc] else []) + Includes(batch[1..])
  {
  }

  lemma IncludesAtEnd(batch: seq<Snippet>, s: Snippet)
    ensures Includes(batch + [s]) == Includes(batch) + (if s.Inc? then [s.inc] else [])
  {
    hide Includes;
    IncludesSplit(batch, [s]);
    IncludesHead([s]);
    IncludesHead([s][1..]);
  }

  lemma {:induction false} CutoffAtEnd(batch: seq<Snippet>, s: Snippet)
    ensures Cutoff(batch + [s]) == if s.Inc? then |batch| + 1 else Cutoff(batch)
  {
    if batch == [] {
      assert batch + [s] == [s] && [s][1..] == [];
    } else {
      assert (batch + [s])[1..] == batch[1..] + [s];
      CutoffAtEnd(batch[1..], s);
    }
  }

  /** The part of Separated that starts at element i, with the blank line in front of it if there is one. */
  ghost function SeparatedFrom(style: Style, includes: seq<Include>, i: nat): seq<Snippet>
    requires i <= |includes|
  {
    if i == |includes| then []
    else
      (if i > 0 && style.key(includes[i]).0 != style.key(includes[i - 1]).0 then [BLANK_LINE] else [])
      + Separated(style, includes[i..])
  }

  lemma SeparatedStep(style: Style, includes: seq<Include>, i: nat)
    requires i < |includes|
    ensures
      SeparatedFrom(style, includes, i)
      == (if i > 0 && style.key(includes[i]).0 != style.key(includes[i - 1]).0 then [BLANK_LINE] else [])
         + [Inc(includes[i])] + SeparatedFrom(style, includes, i + 1)
  {
    assert includes[i..][1..] == includes[i + 1..];
  }
}
