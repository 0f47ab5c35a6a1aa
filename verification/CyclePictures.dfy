/**
 * What a drawing of find_cycles in config/check_spidermonkey_style.py looks like: an outline of names and depths, in
 * which the successors of a header stand below it where it is first named.
 */
module CyclePictures {
  import opened Graphs
  import opened Sequences
  import opened Sorting
  import opened TarjanState
  import opened Tarjan
  import opened CycleDrawings

  datatype Entry = Entry(name: string, depth: nat)

  ghost predicate ShowsAll(lines: seq<string>, entries: seq<Entry>) {
    |lines| == |entries| && forall i :: 0 <= i < |lines| ==> Shows(lines[i], entries[i].name, entries[i].depth)
  }

  /** Entry k is directly below entry i: one step deeper, and all entries between them are deeper than i. */
  ghost predicate Below(entries: seq<Entry>, i: nat, k: nat) {
    && i < k < |entries| && entries[k].depth == entries[i].depth + 1
    && forall j :: i < j < k ==> entries[j].depth > entries[i].depth
  }

  ghost function NamesBelow(entries: seq<Entry>, i: nat): set<string> {
    set k: nat | k < |entries| && Below(entries, i, k) :: entries[k].name
  }

  /** Neither drawn before nor named further up. */
  ghost predicate FirstNamed(entries: seq<Entry>, drawn: set<string>, i: nat)
    requires i < |entries|
  {
    entries[i].name !in drawn && forall j :: 0 <= j < i ==> entries[j].name != entries[i].name
  }

  /** Below a header that is first named are its successors in the component, in order; below others nothing. */
  ghost predicate DrawnOut(g: Headers, cset: set<string>, drawn: set<string>, entries: seq<Entry>, i: nat)
    requires i < |entries|
  {
    && (forall k: nat, l: nat :: Below(entries, i, k) && Below(entries, i, l) && k < l ==>
        Precedes(entries[k].name, entries[l].name))
    && entries[i].name in g
    && NamesBelow(entries, i) == if FirstNamed(entries, drawn, i) then g[entries[i].name] * cset else {}
  }

  /** No entry is more than one step deeper than the one before it, and none less deep than the first. */
  ghost predicate Outline(entries: seq<Entry>, depth: nat) {
    && (entries != [] ==> entries[0].depth == depth)
    && (forall i :: 0 <= i < |entries| ==> entries[i].depth >= depth)
    && forall i :: 0 < i < |entries| ==> entries[i].depth <= entries[i - 1].depth + 1
  }

  ghost predicate Forest(g: Headers, cset: set<string>, drawn: set<string>, entries: seq<Entry>, depth: nat) {
    Outline(entries, depth) && forall i :: 0 <= i < |entries| ==> DrawnOut(g, cset, drawn, entries, i)
  }

  /**
   * The drawing of a component: from the member that precedes all others, each header with its successors below it
   * where it is first named, and nowhere else.
   */
  ghost predicate IsPicture(g: Headers, cset: set<string>, lines: seq<string>, entries: seq<Entry>) {
    && ShowsAll(lines, entries) && entries != []
    && entries[0].name in cset && (forall v :: v in cset && v != entries[0].name ==> Precedes(entries[0].name, v))
    && Forest(g, cset, {}, entries, 0) && (forall i :: 0 < i < |entries| ==> entries[i].depth > 0)
    && forall v :: v in cset <==> exists i :: 0 <= i < |entries| && entries[i].name == v
  }

  // Parts of outlines -------------------------------------------------------------------------------

  ghost function Names(entries: seq<Entry>): set<string> {
    set i | 0 <= i < |entries| :: entries[i].name
  }

  ghost function TopNames(entries: seq<Entry>, depth: nat): set<string> {
    set i | 0 <= i < |entries| && entries[i].depth == depth :: entries[i].name
  }

  ghost predicate TopsAscend(entries: seq<Entry>, depth: nat) {
    forall i, j :: 0 <= i < j < |entries| && entries[i].depth == entries[j].depth == depth ==>
      Precedes(entries[i].name, entries[j].name)
  }

  ghost predicate Ascending(names: seq<string>) {
    forall i, j :: 0 <= i < j < |names| ==> Precedes(names[i], names[j])
  }

  /** Entry i of one outline has below it what entry i + shift, which is at, has in another. */
  ghost predicate SameBelow(part: seq<Entry>, whole: seq<Entry>, shift: nat, i: nat, at: nat) {
    && at == i + shift && i < |part| && at < |whole| && part[i] == whole[at]
    && (forall k: nat :: Below(part, i, k) ==> Below(whole, at, k + shift) && whole[k + shift] == part[k])
    && (forall k: nat :: Below(whole, at, k) ==> k >= shift && Below(part, i, k - shift) && whole[k] == part[k - shift])
  }

  lemma SameNamesBelow(part: seq<Entry>, whole: seq<Entry>, shift: nat, i: nat, at: nat)
    requires SameBelow(part, whole, shift, i, at)
    ensures NamesBelow(part, i) == NamesBelow(whole, at)
  {
    hide Below;
    forall name | name in NamesBelow(part, i) ensures name in NamesBelow(whole, at) {
      var k: nat :| k < |part| && Below(part, i, k) && part[k].name == name;
      BelowWithin(whole, at, k + shift);
      assert whole[k + shift].name == name;
    }
    forall name | name in NamesBelow(whole, at) ensures name in NamesBelow(part, i) {
      var k: nat :| k < |whole| && Below(whole, at, k) && whole[k].name == name;
      BelowWithin(part, i, k - shift);
      assert part[k - shift].name == name;
    }
  }

  lemma BelowWithin(entries: seq<Entry>, i: nat, k: nat)
    requires Below(entries, i, k)
    ensures k < |entries|
  {
  }

  lemma DrawnOutSame(g: Headers, cset: set<string>, drawn: set<string>, drawn': set<string>, part: seq<Entry>,
                     whole: seq<Entry>, shift: nat, i: nat, at: nat)
    requires SameBelow(part, whole, shift, i, at) && DrawnOut(g, cset, drawn', part, i)
    requires FirstNamed(part, drawn', i) <==> FirstNamed(whole, drawn, at)
    ensures DrawnOut(g, cset, drawn, whole, at)
  {
    hide Below, NamesBelow, FirstNamed, Precedes;
    SameNamesBelow(part, whole, shift, i, at);
    forall k: nat, l: nat | Below(whole, at, k) && Below(whole, at, l) && k < l
      ensures k < |whole| && l < |whole| && Precedes(whole[k].name, whole[l].name)
    {
      BelowWithin(whole, at, k);
      BelowWithin(whole, at, l);
      assert Below(part, i, k - shift) && Below(part, i, l - shift);
    }
  }

  // One header and what is below it -----------------------------------------------------------------

  lemma HeadBelow(top: Entry, rest: seq<Entry>)
    requires Outline(rest, top.depth + 1)
    ensures NamesBelow([top] + rest, 0) == TopNames(rest, top.depth + 1)
    ensures TopsAscend(rest, top.depth + 1) ==>
      forall k: nat, l: nat :: Below([top] + rest, 0, k) && Below([top] + rest, 0, l) && k < l ==>
        Precedes(([top] + rest)[k].name, ([top] + rest)[l].name)
  {
    hide Precedes;
    var whole := [top] + rest;
    forall k: nat | k < |whole|
      ensures Below(whole, 0, k) <==> k > 0 && rest[k - 1].depth == top.depth + 1
    {
    }
    forall name | name in TopNames(rest, top.depth + 1) ensures name in NamesBelow(whole, 0) {
      var i :| 0 <= i < |rest| && rest[i].depth == top.depth + 1 && rest[i].name == name;
      assert Below(whole, 0, i + 1) && whole[i + 1].name == name;
    }
  }

  lemma BelowHead(top: Entry, rest: seq<Entry>, i: nat)
    requires i < |rest|
    ensures SameBelow(rest, [top] + rest, 1, i, i + 1)
  {
    var whole, at := [top] + rest, i + 1;
    forall k: nat | Below(rest, i, k) ensures Below(whole, at, k + 1) {
      assert forall j :: at < j < k + 1 ==> whole[j] == rest[j - 1];
    }
    forall k: nat | Below(whole, at, k) ensures k >= 1 && Below(rest, i, k - 1) {
      assert forall j :: i < j < k - 1 ==> whole[j + 1] == rest[j];
    }
  }

  lemma FirstBelowHead(top: Entry, rest: seq<Entry>, drawn: set<string>, i: nat)
    requires i < |rest|
    ensures FirstNamed(rest, drawn + {top.name}, i) <==> FirstNamed([top] + rest, drawn, i + 1)
  {
    var whole := [top] + rest;
    if FirstNamed(rest, drawn + {top.name}, i) {
      forall j | 0 <= j < i + 1 ensures whole[j].name != whole[i + 1].name {
        assert j > 0 ==> whole[j] == rest[j - 1];
      }
    }
    if FirstNamed(whole, drawn, i + 1) {
      assert whole[0].name != whole[i + 1].name;
      forall j | 0 <= j < i ensures rest[j].name != rest[i].name {
        assert whole[j + 1] == rest[j];
      }
    }
  }

  /** A header that has not been drawn, with an outline of its successors below it. */
  lemma NewHead(g: Headers, cset: set<string>, drawn: set<string>, top: Entry, rest: seq<Entry>)
    requires top.name in g && top.name !in drawn
    requires Forest(g, cset, drawn + {top.name}, rest, top.depth + 1)
    requires TopNames(rest, top.depth + 1) == g[top.name] * cset && TopsAscend(rest, top.depth + 1)
    ensures Forest(g, cset, drawn, [top] + rest, top.depth) && Names([top] + rest) == {top.name} + Names(rest)
  {
    hide Below, NamesBelow, DrawnOut, TopsAscend, Precedes, Names;
    var whole := [top] + rest;
    HeadDrawnOut(g, cset, drawn, top, rest);
    forall i | 0 <= i < |whole| ensures DrawnOut(g, cset, drawn, whole, i) {
      if i > 0 {
        BelowHead(top, rest, i - 1);
        FirstBelowHead(top, rest, drawn, i - 1);
        DrawnOutSame(g, cset, drawn, drawn + {top.name}, rest, whole, 1, i - 1, i);
      }
    }
    NamesJoin([top], rest);
    NameOfOne(top);
  }

  lemma HeadDrawnOut(g: Headers, cset: set<string>, drawn: set<string>, top: Entry, rest: seq<Entry>)
    requires top.name in g && top.name !in drawn && Outline(rest, top.depth + 1)
    requires TopNames(rest, top.depth + 1) == g[top.name] * cset && TopsAscend(rest, top.depth + 1)
    ensures DrawnOut(g, cset, drawn, [top] + rest, 0)
  {
    hide Below, NamesBelow, TopNames, TopsAscend, Precedes, Outline;
    HeadBelow(top, rest);
  }

  /** A header that has been drawn, with nothing below it. */
  lemma OldHead(g: Headers, cset: set<string>, drawn: set<string>, top: Entry)
    requires top.name in g && top.name in drawn
    ensures Forest(g, cset, drawn, [top], top.depth) && Names([top]) == {top.name}
  {
    hide Precedes;
    NameOfOne(top);
    assert NamesBelow([top], 0) == {};
  }

  lemma NameOfOne(top: Entry)
    ensures Names([top]) == {top.name}
  {
    assert [top][0].name in Names([top]);
  }

  lemma NamesJoin(a: seq<Entry>, b: seq<Entry>)
    ensures Names(a + b) == Names(a) + Names(b)
  {
    forall name | name in Names(a) + Names(b) ensures name in Names(a + b) {
      if name in Names(a) {
        var i :| 0 <= i < |a| && a[i].name == name;
        assert (a + b)[i].name == name;
      } else {
        var i :| 0 <= i < |b| && b[i].name == name;
        assert (a + b)[|a| + i].name == name;
      }
    }
  }

  // One outline after the other ---------------------------------------------------------------------

  lemma BelowFirst(a: seq<Entry>, b: seq<Entry>, depth: nat, i: nat)
    requires Outline(a, depth) && Outline(b, depth) && i < |a|
    ensures SameBelow(a, a + b, 0, i, i)
  {
    forall k: nat | Below(a, i, k) ensures Below(a + b, i, k) {
      assert forall j :: i < j < k ==> (a + b)[j] == a[j];
    }
    forall k: nat | Below(a + b, i, k) ensures Below(a, i, k) {
      OutOfFirst(a, b, depth, i, k);
      assert forall j :: i < j < k ==> (a + b)[j] == a[j];
    }
  }

  /** What is below an entry of the first outline is in it. */
  lemma OutOfFirst(a: seq<Entry>, b: seq<Entry>, depth: nat, i: nat, k: nat)
    requires Outline(a, depth) && Outline(b, depth) && i < |a| && Below(a + b, i, k)
    ensures k < |a|
  {
    assert |a| < |a + b| ==> (a + b)[|a|].depth == depth;
  }

  lemma BelowSecond(a: seq<Entry>, b: seq<Entry>, i: nat)
    requires i < |b|
    ensures SameBelow(b, a + b, |a|, i, i + |a|)
  {
    var whole, at := a + b, i + |a|;
    forall k: nat | Below(b, i, k) ensures Below(whole, at, k + |a|) {
      assert forall j :: at < j < k + |a| ==> whole[j] == b[j - |a|];
    }
    forall k: nat | Below(whole, at, k) ensures k >= |a| && Below(b, i, k - |a|) {
      assert forall j :: i < j < k - |a| ==> whole[j + |a|] == b[j];
    }
  }

  lemma FirstInFirst(a: seq<Entry>, b: seq<Entry>, drawn: set<string>, i: nat)
    requires i < |a|
    ensures FirstNamed(a, drawn, i) <==> FirstNamed(a + b, drawn, i)
  {
    assert forall j :: 0 <= j <= i ==> (a + b)[j] == a[j];
  }

  lemma FirstInSecond(a: seq<Entry>, b: seq<Entry>, drawn: set<string>, i: nat)
    requires i < |b|
    ensures FirstNamed(b, drawn + Names(a), i) <==> FirstNamed(a + b, drawn, i + |a|)
  {
    var whole := a + b;
    if FirstNamed(b, drawn + Names(a), i) {
      forall j | 0 <= j < i + |a| ensures whole[j].name != whole[i + |a|].name {
        if j < |a| {
          assert whole[j].name in Names(a);
        } else {
          assert whole[j] == b[j - |a|];
        }
      }
    }
    if FirstNamed(whole, drawn, i + |a|) {
      forall j | 0 <= j < i ensures b[j].name != b[i].name {
        assert whole[j + |a|] == b[j];
      }
      forall j | 0 <= j < |a| ensures a[j].name != b[i].name {
        assert whole[j] == a[j];
      }
    }
  }

  lemma ForestsJoin(g: Headers, cset: set<string>, drawn: set<string>, a: seq<Entry>, b: seq<Entry>, depth: nat)
    requires Forest(g, cset, drawn, a, depth) && Forest(g, cset, drawn + Names(a), b, depth)
    ensures Forest(g, cset, drawn, a + b, depth)
  {
    hide DrawnOut, Names, SameBelow;
    OutlinesJoin(a, b, depth);
    forall i | 0 <= i < |a + b| ensures DrawnOut(g, cset, drawn, a + b, i) {
      if i < |a| {
        BelowFirst(a, b, depth, i);
        FirstInFirst(a, b, drawn, i);
        DrawnOutSame(g, cset, drawn, drawn, a, a + b, 0, i, i);
      } else {
        BelowSecond(a, b, i - |a|);
        FirstInSecond(a, b, drawn, i - |a|);
        DrawnOutSame(g, cset, drawn, drawn + Names(a), b, a + b, |a|, i - |a|, i);
      }
    }
  }

  lemma OutlinesJoin(a: seq<Entry>, b: seq<Entry>, depth: nat)
    requires Outline(a, depth) && Outline(b, depth)
    ensures Outline(a + b, depth)
  {
    var whole := a + b;
    if a == [] {
      assert whole == b;
    }
    forall i | 0 <= i < |whole| ensures whole[i].depth >= depth {
      assert whole[i] == if i < |a| then a[i] else b[i - |a|];
    }
    forall i | 0 < i < |whole| ensures whole[i].depth <= whole[i - 1].depth + 1 {
      assert whole[i] == if i < |a| then a[i] else b[i - |a|];
      assert whole[i - 1] == if i - 1 < |a| then a[i - 1] else b[i - 1 - |a|];
    }
  }

  /** An outline with one top, followed by one whose tops all come after that. */
  lemma TopsJoin(a: seq<Entry>, b: seq<Entry>, depth: nat)
    requires a != [] && a[0].depth == depth && forall i :: 0 < i < |a| ==> a[i].depth > depth
    requires TopsAscend(b, depth) && forall name :: name in TopNames(b, depth) ==> Precedes(a[0].name, name)
    ensures TopsAscend(a + b, depth) && TopNames(a + b, depth) == {a[0].name} + TopNames(b, depth)
  {
    hide Precedes;
    var whole := a + b;
    forall i, j | 0 <= i < j < |whole| && whole[i].depth == whole[j].depth == depth
      ensures Precedes(whole[i].name, whole[j].name)
    {
      assert b[j - |a|].name in TopNames(b, depth);
    }
    forall name | name in {a[0].name} + TopNames(b, depth) ensures name in TopNames(whole, depth) {
      if name == a[0].name {
        assert whole[0].name == name;
      } else {
        var i :| 0 <= i < |b| && b[i].depth == depth && b[i].name == name;
        assert whole[|a| + i].name == name;
      }
    }
  }

  lemma ShownJoin(lines: seq<string>, a: seq<Entry>, lines': seq<string>, b: seq<Entry>)
    requires ShowsAll(lines, a) && ShowsAll(lines', b)
    ensures ShowsAll(lines + lines', a + b)
  {
    hide Shows;
  }

  // What is drawn -----------------------------------------------------------------------------------

  /** The outline of a drawing. */
  lemma {:induction false} DrawOutline(g: Headers, cset: set<string>, v: string, indent: nat, drawn: set<string>)
    returns (entries: seq<Entry>)
    requires cset <= g.Keys && v in cset && drawn <= cset
    ensures var r := DrawingFrom(g, cset, v, indent, drawn);
      ShowsAll(r.lines, entries) && r.drawn == drawn + Names(entries)
    ensures Forest(g, cset, drawn, entries, indent) && entries != [] && entries[0] == Entry(v, indent)
    ensures forall i :: 0 < i < |entries| ==> entries[i].depth > indent
    decreases cset - drawn, 0, 0
  {
    hide Forest, Names, Line, Shows;
    var top := Entry(v, indent);
    LineShows(v, indent);
    if v in drawn {
      entries := [top];
      OldHead(g, cset, drawn, top);
    } else {
      var succs := Successors(g, v);
      SuccessorsAscend(g, cset, v);
      var rest := DrawAllOutline(g, cset, succs, indent + 1, drawn + {v});
      NewHead(g, cset, drawn, top, rest);
      ShownJoin([Line(v, indent)], [top], DrawingsOf(g, cset, succs, indent + 1, drawn + {v}).lines, rest);
      DepthsOf(g, cset, drawn + {v}, rest, indent + 1);
      entries := [top] + rest;
    }
  }

  lemma DepthsOf(g: Headers, cset: set<string>, drawn: set<string>, entries: seq<Entry>, depth: nat)
    requires Forest(g, cset, drawn, entries, depth)
    ensures forall i :: 0 <= i < |entries| ==> entries[i].depth >= depth
  {
  }

  lemma SuccessorsAscend(g: Headers, cset: set<string>, v: string)
    requires v in g
    ensures Ascending(Successors(g, v)) && Members(cset, Successors(g, v)) == g[v] * cset
  {
    hide Precedes, StringLess;
    var succs := Successors(g, v);
    StringOrder();
    ListsOnce(StringLess(), g[v], succs);
    forall i, j | 0 <= i < j < |succs| ensures Precedes(succs[i], succs[j]) {
      StringLessIs(succs[i], succs[j]);
      assert StringLess()(succs[i], succs[j]);
    }
  }

  lemma {:induction false} DrawAllOutline(g: Headers, cset: set<string>, succs: seq<string>, indent: nat,
                                          drawn: set<string>) returns (entries: seq<Entry>)
    requires cset <= g.Keys && drawn <= cset && Ascending(succs)
    ensures var r := DrawingsOf(g, cset, succs, indent, drawn);
      ShowsAll(r.lines, entries) && r.drawn == drawn + Names(entries)
    ensures Forest(g, cset, drawn, entries, indent)
    ensures TopNames(entries, indent) == Members(cset, succs) && TopsAscend(entries, indent)
    decreases cset - drawn, 1, |succs|
  {
    hide Forest, Names, TopsAscend, TopNames, Precedes, Members, ShowsAll;
    if succs == [] {
      entries := [];
      NothingDrawn(g, cset, drawn, indent);
    } else {
      SplitMembers(cset, succs);
      if succs[0] in cset {
        var a := DrawOutline(g, cset, succs[0], indent, drawn);
        var first := DrawingFrom(g, cset, succs[0], indent, drawn);
        var b := DrawAllOutline(g, cset, succs[1..], indent, first.drawn);
        ForestsJoin(g, cset, drawn, a, b, indent);
        TopsJoin(a, b, indent);
        NamesJoin(a, b);
        ShownJoin(first.lines, a, DrawingsOf(g, cset, succs[1..], indent, first.drawn).lines, b);
        entries := a + b;
      } else {
        entries := DrawAllOutline(g, cset, succs[1..], indent, drawn);
      }
    }
  }

  lemma NothingDrawn(g: Headers, cset: set<string>, drawn: set<string>, indent: nat)
    ensures ShowsAll([], []) && Names([]) == {} && Forest(g, cset, drawn, [], indent)
    ensures TopNames([], indent) == Members(cset, []) && TopsAscend([], indent)
  {
  }

  lemma SplitMembers(cset: set<string>, succs: seq<string>)
    requires succs != [] && Ascending(succs)
    ensures Ascending(succs[1..])
    ensures Members(cset, succs) == (if succs[0] in cset then {succs[0]} else {}) + Members(cset, succs[1..])
    ensures forall name :: name in Members(cset, succs[1..]) ==> Precedes(succs[0], name)
  {
    hide Precedes;
    assert succs == [succs[0]] + succs[1..];
    forall name | name in succs[1..] ensures Precedes(succs[0], name) {
      var i :| 0 <= i < |succs| - 1 && succs[1..][i] == name;
      assert succs[i + 1] == name;
    }
  }

  lemma FirstPrecedes(c: seq<string>, v: string)
    requires c != [] && v in c && v != First(c)
    ensures Precedes(First(c), v)
  {
    hide Precedes, StringLess;
    StringOrder();
    SortKeeps(StringLess(), c);
    var sorted := Sort(StringLess(), c);
    assert v in multiset(sorted);
    var i :| 0 <= i < |sorted| && sorted[i] == v;
    StringLessIs(First(c), v);
  }

  lemma NamesAre(entries: seq<Entry>, cset: set<string>)
    requires Names(entries) == cset
    ensures forall v :: v in cset <==> exists i :: 0 <= i < |entries| && entries[i].name == v
  {
  }

  /** The drawing of a component is its picture. */
  lemma SccPicture(g: Headers, c: seq<string>) returns (entries: seq<Entry>)
    requires IsScc(g, c) && Elems(c) <= g.Keys
    ensures IsPicture(g, Elems(c), DrawScc(g, c).lines, entries)
  {
    hide *;
    SccStarts(g, c);
    var cset, root := Elems(c), First(c);
    entries := DrawOutline(g, cset, root, 0, {});
    SccDrawing(g, c);
    NamesAre(entries, cset);
    IsPictureIf(g, c, DrawScc(g, c).lines, entries);
  }

  lemma SccStarts(g: Headers, c: seq<string>)
    requires IsScc(g, c) && Elems(c) <= g.Keys
    ensures c != [] && First(c) in Elems(c) && DrawScc(g, c) == DrawingFrom(g, Elems(c), First(c), 0, {})
    ensures forall s: set<string> :: {} + s == s
  {
  }

  lemma IsPictureIf(g: Headers, c: seq<string>, lines: seq<string>, entries: seq<Entry>)
    requires c != [] && ShowsAll(lines, entries) && entries != [] && entries[0].name == First(c)
    requires Forest(g, Elems(c), {}, entries, 0) && (forall i :: 0 < i < |entries| ==> entries[i].depth > 0)
    requires forall v :: v in Elems(c) <==> exists i :: 0 <= i < |entries| && entries[i].name == v
    ensures IsPicture(g, Elems(c), lines, entries)
  {
    hide Forest, ShowsAll, First, Precedes;
    forall v | v in Elems(c) && v != First(c) ensures Precedes(First(c), v) {
      FirstPrecedes(c, v);
    }
  }
}
