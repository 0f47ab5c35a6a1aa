/**
 * How far the output of find_cycles in config/check_spidermonkey_style.py is determined by the include graph. The
 * components and their members are listed in an order that iterating over sets decides. Every drawing is the same for
 * all of them; the order of several drawings is not.
 */
module CycleReports {
  import opened CycleDrawer
  import opened CycleDrawings
  import opened Graphs
  import opened Sequences
  import opened Sorting
  import opened Tarjan
  import opened TarjanState

  /** One drawing does not depend on how the members of the component are listed. */
  lemma DrawingDetermined(g: Headers, c: seq<string>, d: seq<string>)
    requires c != [] && d != [] && Elems(c) <= g.Keys && multiset(c) == multiset(d)
    ensures Elems(d) == Elems(c) && First(c) == First(d) && DrawScc(g, c) == DrawScc(g, d)
  {
    StringOrder();
    assert forall x :: x in c <==> x in multiset(c);
    assert forall x :: x in d <==> x in multiset(d);
    SortKeeps(StringLess(), c);
    SortKeeps(StringLess(), d);
    SortedUnique(StringLess(), Sort(StringLess(), c), Sort(StringLess(), d));
  }

  // A report is as good as the list of headers its drawings start from -----------------------------

  /** The first header of each cyclic component, in order. */
  function Firsts(sccs: seq<seq<string>>): seq<string>
    requires [] !in sccs
  {
    if sccs == [] then []
    else
      assert [] !in sccs[..|sccs| - 1] && sccs[|sccs| - 1] in sccs;
      Firsts(sccs[..|sccs| - 1]) + if |sccs[|sccs| - 1]| == 1 then [] else [First(sccs[|sccs| - 1])]
  }

  /** The headers on a cycle with v, or v alone. */
  ghost function Component(g: Headers, v: string): set<string> {
    set w | w in g && Mutual(g, v, w)
  }

  ghost function BlockFrom(g: Headers, v: string): (r: seq<string>)
    requires v in g
    ensures r != [] && r[0] == Line(v, 0)
  {
    ReachSelf(g, v);
    DrawingFrom(g, Component(g, v), v, 0, {}).lines + [""]
  }

  ghost function Blocks(g: Headers, firsts: seq<string>): seq<string>
    requires forall v :: v in firsts ==> v in g
  {
    if firsts == [] then []
    else Blocks(g, firsts[..|firsts| - 1]) + BlockFrom(g, firsts[|firsts| - 1])
  }

  lemma {:induction false} BlocksCons(g: Headers, v: string, rest: seq<string>)
    requires v in g && forall w :: w in rest ==> w in g
    ensures Blocks(g, [v] + rest) == BlockFrom(g, v) + Blocks(g, rest)
  {
    hide BlockFrom;
    if rest == [] {
      assert [v] + rest == [v] && [v][..0] == [];
    } else {
      var n := |rest| - 1;
      assert ([v] + rest)[..n + 1] == [v] + rest[..n] && ([v] + rest)[n + 1] == rest[n];
      BlocksCons(g, v, rest[..n]);
    }
  }

  lemma LinesOfTwo(v: string, w: string)
    requires Line(v, 0) == Line(w, 0)
    ensures v == w
  {
    assert v == Line(v, 0)[3..] && w == Line(w, 0)[3..];
  }

  lemma {:induction false} BlocksInjective(g: Headers, a: seq<string>, b: seq<string>)
    requires (forall v :: v in a ==> v in g) && (forall v :: v in b ==> v in g)
    requires Blocks(g, a) == Blocks(g, b)
    ensures a == b
    decreases |a|
  {
    hide BlockFrom, Blocks;
    BlocksNone(g);
    if a != [] {
      assert a == [a[0]] + a[1..];
      BlocksCons(g, a[0], a[1..]);
    }
    if b != [] {
      assert b == [b[0]] + b[1..];
      BlocksCons(g, b[0], b[1..]);
    }
    if a != [] && b != [] {
      assert Blocks(g, a)[0] == BlockFrom(g, a[0])[0] && Blocks(g, b)[0] == BlockFrom(g, b[0])[0];
      LinesOfTwo(a[0], b[0]);
      SameTail(BlockFrom(g, a[0]), Blocks(g, a[1..]), Blocks(g, b[1..]));
      BlocksInjective(g, a[1..], b[1..]);
    }
  }

  lemma BlocksNone(g: Headers)
    ensures Blocks(g, []) == []
  {
  }

  lemma SameTail(front: seq<string>, a: seq<string>, b: seq<string>)
    requires front + a == front + b
    ensures a == b
  {
    assert a == (front + a)[|front|..];
  }

  /** Lists of components as they are handed to the drawing loop. */
  ghost predicate Components(g: Headers, sccs: seq<seq<string>>) {
    && (forall c :: c in sccs ==> IsScc(g, c) && Elems(c) <= g.Keys)
    && Apart(sccs)
  }

  ghost predicate Apart(sccs: seq<seq<string>>) {
    forall i, j, x :: 0 <= i < j < |sccs| && x in sccs[i] ==> x !in sccs[j]
  }

  lemma ComponentsPrefix(g: Headers, sccs: seq<seq<string>>)
    requires Components(g, sccs)
    ensures Drawable(g, sccs) && [] !in sccs
    ensures sccs != [] ==> Components(g, sccs[..|sccs| - 1]) && sccs[|sccs| - 1] in sccs
  {
    assert forall c :: c in sccs ==> c != [];
    if sccs != [] {
      assert forall c :: c in sccs[..|sccs| - 1] ==> c in sccs;
    }
  }

  lemma BlockOfComponent(g: Headers, c: seq<string>)
    requires IsScc(g, c) && Elems(c) <= g.Keys && |c| != 1
    ensures Block(g, c) == BlockFrom(g, First(c))
  {
    assert Component(g, First(c)) == Elems(c);
  }

  lemma {:induction false} FirstsMember(sccs: seq<seq<string>>, v: string)
    requires [] !in sccs
    ensures v in Firsts(sccs) <==> exists c :: c in sccs && |c| != 1 && First(c) == v
  {
    hide First;
    if sccs != [] {
      var n := |sccs| - 1;
      FirstsMember(sccs[..n], v);
      assert forall c :: c in sccs <==> c in sccs[..n] || c == sccs[n];
    }
  }

  lemma FirstsKnown(g: Headers, sccs: seq<seq<string>>)
    requires Drawable(g, sccs) && [] !in sccs
    ensures forall v :: v in Firsts(sccs) ==> v in g
  {
    hide Firsts;
    forall v | v in Firsts(sccs) ensures v in g {
      FirstsMember(sccs, v);
      var c :| c in sccs && |c| != 1 && First(c) == v;
      assert v in Elems(c);
    }
  }

  lemma {:induction false} DrawingsAreBlocks(g: Headers, sccs: seq<seq<string>>)
    requires Components(g, sccs)
    ensures Drawable(g, sccs) && [] !in sccs && (forall v :: v in Firsts(sccs) ==> v in g)
    ensures Drawings(g, sccs) == Blocks(g, Firsts(sccs))
  {
    hide BlockFrom, First, DrawScc, IsScc, Components;
    ComponentsPrefix(g, sccs);
    FirstsKnown(g, sccs);
    if sccs != [] {
      var n := |sccs| - 1;
      DrawingsAreBlocks(g, sccs[..n]);
      if |sccs[n]| != 1 {
        ComponentIn(g, sccs, sccs[n]);
        BlockOfComponent(g, sccs[n]);
        assert Firsts(sccs)[..|Firsts(sccs)| - 1] == Firsts(sccs[..n]);
      } else {
        assert Firsts(sccs) == Firsts(sccs[..n]) && Drawings(g, sccs) == Drawings(g, sccs[..n]);
      }
    }
  }

  lemma ComponentIn(g: Headers, sccs: seq<seq<string>>, c: seq<string>)
    requires Components(g, sccs) && c in sccs
    ensures IsScc(g, c) && Elems(c) <= g.Keys
  {
  }

  /** Two reports are equal exactly if their drawings start from the same headers in the same order. */
  lemma SameReportIff(g: Headers, a: seq<seq<string>>, b: seq<seq<string>>)
    requires Components(g, a) && Components(g, b)
    ensures Drawable(g, a) && Drawable(g, b) && [] !in a && [] !in b
    ensures Report(g, a) == Report(g, b) <==> Firsts(a) == Firsts(b)
  {
    hide Components, Firsts, Blocks, Drawings;
    DrawingsAreBlocks(g, a);
    DrawingsAreBlocks(g, b);
    if Report(g, a) == Report(g, b) {
      if Drawings(g, a) != [] && Drawings(g, b) != [] {
        SameTail(CYCLES_FOUND, Drawings(g, a), Drawings(g, b));
      }
      BlocksInjective(g, Firsts(a), Firsts(b));
    }
  }

  // The exact condition ----------------------------------------------------------------------------

  ghost predicate AllBefore(c: seq<string>, d: seq<string>) {
    forall x, y :: x in c && y in d ==> StringLess()(x, y)
  }

  /** Of any two cyclic components, all members of one sort before all members of the other. */
  ghost predicate Separated(sccs: seq<seq<string>>) {
    forall c, d :: c in sccs && d in sccs && c != d && |c| != 1 && |d| != 1 ==> AllBefore(c, d) || AllBefore(d, c)
  }

  ghost predicate Precedes<T>(s: seq<T>, x: T, y: T) {
    exists i, j :: 0 <= i < j < |s| && s[i] == x && s[j] == y
  }

  lemma {:induction false} FirstsPrecede(sccs: seq<seq<string>>, i: nat, j: nat)
    requires [] !in sccs && i < j < |sccs| && |sccs[i]| != 1 && |sccs[j]| != 1
    requires sccs[i] != [] && sccs[j] != []
    ensures Precedes(Firsts(sccs), First(sccs[i]), First(sccs[j]))
  {
    hide First;
    var n := |sccs| - 1;
    var before, all := Firsts(sccs[..n]), Firsts(sccs);
    assert before <= all;
    if j == n {
      assert sccs[..n][i] == sccs[i];
      FirstsMember(sccs[..n], First(sccs[i]));
      var k :| 0 <= k < |before| && before[k] == First(sccs[i]);
      assert all[k] == First(sccs[i]) && all[|before|] == First(sccs[j]);
    } else {
      FirstsPrecede(sccs[..n], i, j);
      var k, l :| 0 <= k < l < |before| && before[k] == First(sccs[i]) && before[l] == First(sccs[j]);
      assert all[k] == First(sccs[i]) && all[l] == First(sccs[j]);
    }
  }

  lemma {:induction false} FirstsOnce(sccs: seq<seq<string>>)
    requires [] !in sccs && Apart(sccs)
    ensures NoDuplicates(Firsts(sccs))
  {
    if sccs != [] {
      var n := |sccs| - 1;
      FirstsOnce(sccs[..n]);
      assert sccs[n] in sccs;
      var v := First(sccs[n]);
      forall c | c in sccs[..n] ensures v !in c {
        var i :| 0 <= i < n && sccs[i] == c;
      }
      FirstsMember(sccs[..n], v);
    }
  }

  /** In the order of the report, a component that starts lower comes first. */
  lemma LowerFirst(g: Headers, sccs: seq<seq<string>>, c: seq<string>, d: seq<string>)
    requires Components(g, sccs) && Components(g, SortedLists(sccs)) && c in sccs && d in sccs && c != d
    requires |c| != 1 && |d| != 1 && c != [] && d != [] && StringLess()(c[0], d[0])
    ensures [] !in SortedLists(sccs) && Precedes(Firsts(SortedLists(sccs)), First(c), First(d))
  {
    hide Components, Firsts, First, SortedLists;
    ComponentsPrefix(g, SortedLists(sccs));
    var i, j := SortedBelow(sccs, c, d);
    FirstsPrecede(SortedLists(sccs), i, j);
  }

  lemma SortedBelow(sccs: seq<seq<string>>, c: seq<string>, d: seq<string>) returns (i: nat, j: nat)
    requires c in sccs && d in sccs && c != d && c != [] && d != [] && StringLess()(c[0], d[0])
    ensures i < j < |SortedLists(sccs)| && SortedLists(sccs)[i] == c && SortedLists(sccs)[j] == d
  {
    var sorted := SortedLists(sccs);
    ListOrder();
    hide Sort, StrictTotal;
    SortKeeps(ListLess(), sccs);
    assert c in sorted && d in sorted;
    i :| 0 <= i < |sorted| && sorted[i] == c;
    j :| 0 <= j < |sorted| && sorted[j] == d;
    assert ListLess()(c, d);
  }

  lemma SccsAreComponents(g: Headers, all: set<string>, sccs: seq<seq<string>>)
    requires ClosedOver(g, all) && AreSccs(g, all, sccs)
    ensures Components(g, sccs) && Components(g, SortedLists(sccs)) && Drawable(g, sccs)
  {
    SccsInside(g, all, sccs);
    forall c | c in sccs ensures IsScc(g, c) {
      var i :| 0 <= i < |sccs| && sccs[i] == c;
    }
    forall i, j, x | 0 <= i < j < |sccs| && x in sccs[i] ensures x !in sccs[j] {
      assert x in Elems(sccs[i]);
    }
    SortedApart(sccs);
  }

  lemma SortedApart(sccs: seq<seq<string>>)
    requires Apart(sccs) && [] !in sccs
    ensures Apart(SortedLists(sccs))
  {
    var sorted := SortedLists(sccs);
    forall i, j, x | 0 <= i < j < |sorted| && x in sorted[i] ensures x !in sorted[j] {
      assert sorted[i] in sccs && sorted[j] in sccs;
      var k :| 0 <= k < |sccs| && sccs[k] == sorted[i];
      var l :| 0 <= l < |sccs| && sccs[l] == sorted[j];
      if k == l {
        DuplicateCounts(sorted, i, j);
        CountedOnce(sccs, k);
      }
    }
  }

  lemma {:induction false} OnceIsSet<T>(s: seq<T>)
    requires NoDuplicates(s)
    ensures multiset(s) == multiset(Elems(s))
  {
    if s != [] {
      var n := |s| - 1;
      OnceIsSet(s[..n]);
      assert s == s[..n] + [s[n]];
      assert Elems(s) == Elems(s[..n]) + {s[n]} && s[n] !in s[..n];
    }
  }

  lemma {:induction false} IncreasingUnique(a: seq<string>, b: seq<string>)
    requires NoDuplicates(a) && NoDuplicates(b) && Elems(a) == Elems(b)
    requires InOrder(StringLess(), a) && InOrder(StringLess(), b)
    ensures a == b
  {
    StringOrder();
    OnceIsSet(a);
    OnceIsSet(b);
    SortedUnique(StringLess(), a, b);
  }

  /** Every listing has the same cyclic components, up to the order of their members. */
  lemma SameComponent(g: Headers, all: set<string>, a: seq<seq<string>>, b: seq<seq<string>>, c: seq<string>)
      returns (d: seq<string>)
    requires ClosedOver(g, all) && AreSccs(g, all, a) && AreSccs(g, all, b) && c in a
    ensures d in b && c != [] && d != [] && Elems(c) == Elems(d) && |c| == |d| && First(c) == First(d)
  {
    SccsAreComponents(g, all, a);
    var i :| 0 <= i < |a| && a[i] == c;
    assert IsScc(g, c);
    EmittedMember(a, i, c[0]);
    var j := EmittedFrom(b, c[0]);
    d := b[j];
    assert IsScc(g, d);
    assert forall x :: x in c <==> x in d;
    assert Elems(c) == Elems(d);
    OnceIsSet(c);
    OnceIsSet(d);
    assert |multiset(c)| == |c| && |multiset(d)| == |d|;
    SccsInside(g, all, a);
    DrawingDetermined(g, c, d);
  }

  lemma FirstsIncrease(g: Headers, sccs: seq<seq<string>>)
    requires Components(g, sccs) && Components(g, SortedLists(sccs)) && Separated(sccs)
    ensures [] !in SortedLists(sccs) && InOrder(StringLess(), Firsts(SortedLists(sccs)))
  {
    hide Components, IsScc, First, Firsts;
    var sorted := SortedLists(sccs);
    ComponentsPrefix(g, sccs);
    ComponentsPrefix(g, sorted);
    ComponentsApart(g, sorted);
    FirstsOnce(sorted);
    var firsts := Firsts(sorted);
    forall i, j | 0 <= i < j < |firsts| ensures !StringLess()(firsts[j], firsts[i]) {
      FirstsMember(sorted, firsts[i]);
      FirstsMember(sorted, firsts[j]);
      var c :| c in sorted && |c| != 1 && First(c) == firsts[i];
      var d :| d in sorted && |d| != 1 && First(d) == firsts[j];
      NotBoth(firsts, i, j);
      FirstsOfTwo(g, sccs, c, d);
    }
  }

  /** If the drawing of d does not come before that of c, then d does not start lower. */
  lemma FirstsOfTwo(g: Headers, sccs: seq<seq<string>>, c: seq<string>, d: seq<string>)
    requires Components(g, sccs) && Components(g, SortedLists(sccs)) && Separated(sccs) && [] !in SortedLists(sccs)
    requires c in sccs && d in sccs && |c| != 1 && |d| != 1 && c != [] && d != []
    requires !Precedes(Firsts(SortedLists(sccs)), First(d), First(c))
    ensures !StringLess()(First(d), First(c))
  {
    hide Components, Firsts, SortedLists, Precedes, LexBy, LexLess;
    StringOrder();
    if c != d && AllBefore(d, c) {
      LowerFirst(g, sccs, d, c);
      assert false;
    }
  }

  lemma ComponentsApart(g: Headers, sccs: seq<seq<string>>)
    requires Components(g, sccs)
    ensures Apart(sccs)
  {
  }

  lemma NotBoth<T>(s: seq<T>, i: nat, j: nat)
    requires NoDuplicates(s) && i < j < |s|
    ensures !Precedes(s, s[j], s[i])
  {
  }

  lemma FirstsIncluded(g: Headers, all: set<string>, a: seq<seq<string>>, b: seq<seq<string>>, v: string)
    requires ClosedOver(g, all) && AreSccs(g, all, a) && AreSccs(g, all, b)
    requires [] !in SortedLists(a) && [] !in SortedLists(b) && v in Firsts(SortedLists(a))
    ensures v in Firsts(SortedLists(b))
  {
    hide Firsts, First, AreSccs;
    FirstsMember(SortedLists(a), v);
    FirstsMember(SortedLists(b), v);
    var c :| c in SortedLists(a) && |c| != 1 && First(c) == v;
    var d := SameComponent(g, all, a, b, c);
    assert d in SortedLists(b) && |d| != 1 && First(d) == v;
  }

  lemma SeparatedAgrees(g: Headers, all: set<string>, a: seq<seq<string>>, b: seq<seq<string>>)
    requires ClosedOver(g, all) && AreSccs(g, all, a) && AreSccs(g, all, b) && Separated(a)
    ensures Separated(b)
  {
    hide AreSccs, First, LexBy, LexLess;
    forall c, d | c in b && d in b && c != d && |c| != 1 && |d| != 1
      ensures AllBefore(c, d) || AllBefore(d, c)
    {
      var c' := SameComponent(g, all, b, a, c);
      var d' := SameComponent(g, all, b, a, d);
      SameMembers(c, c');
      SameMembers(d, d');
      DifferentMembers(g, all, b, c, d);
    }
  }

  lemma SameMembers(c: seq<string>, d: seq<string>)
    requires Elems(c) == Elems(d)
    ensures forall x :: x in c <==> x in d
  {
    assert forall x :: x in c <==> x in Elems(c);
    assert forall x :: x in d <==> x in Elems(d);
  }

  lemma DifferentMembers(g: Headers, all: set<string>, sccs: seq<seq<string>>, c: seq<string>, d: seq<string>)
    requires ClosedOver(g, all) && AreSccs(g, all, sccs) && c in sccs && d in sccs && c != d
    ensures Elems(c) != Elems(d)
  {
    SccsAreComponents(g, all, sccs);
    var i :| 0 <= i < |sccs| && sccs[i] == c;
    var j :| 0 <= j < |sccs| && sccs[j] == d;
    assert IsScc(g, c) && c[0] in c;
    SameMembers(c, c);
    assert c[0] in Elems(c);
  }

  /** Separated components: every listing gives the same report. */
  lemma SeparatedUnique(g: Headers, all: set<string>, a: seq<seq<string>>, b: seq<seq<string>>)
    requires ClosedOver(g, all) && AreSccs(g, all, a) && AreSccs(g, all, b) && Separated(a)
    requires Drawable(g, a) && Drawable(g, b)
    ensures Report(g, SortedLists(a)) == Report(g, SortedLists(b))
  {
    hide AreSccs, Components, Firsts, Report, Drawable;
    SccsAreComponents(g, all, a);
    SccsAreComponents(g, all, b);
    SeparatedAgrees(g, all, a, b);
    FirstsIncrease(g, a);
    FirstsIncrease(g, b);
    var fa, fb := Firsts(SortedLists(a)), Firsts(SortedLists(b));
    ComponentsApart(g, SortedLists(a));
    ComponentsApart(g, SortedLists(b));
    FirstsOnce(SortedLists(a));
    FirstsOnce(SortedLists(b));
    forall v | v in fa || v in fb ensures v in fa && v in fb {
      if v in fa {
        FirstsIncluded(g, all, a, b, v);
      } else {
        FirstsIncluded(g, all, b, a, v);
      }
    }
    assert Elems(fa) == Elems(fb);
    IncreasingUnique(fa, fb);
    SameReportIff(g, SortedLists(a), SortedLists(b));
  }

  /** The same members with x at the front. */
  ghost function Fronted(c: seq<string>, x: string): (r: seq<string>)
    requires x in c
    ensures r != [] && r[0] == x && multiset(r) == multiset(c) && |r| == |c|
  {
    var i :| 0 <= i < |c| && c[i] == x;
    assert c == c[..i] + [c[i]] + c[i + 1..];
    [x] + c[..i] + c[i + 1..]
  }

  lemma {:induction false} EmittedSame(a: seq<seq<string>>, b: seq<seq<string>>)
    requires |a| == |b| && forall i :: 0 <= i < |a| ==> Elems(a[i]) == Elems(b[i])
    ensures Emitted(a) == Emitted(b)
  {
    if a != [] {
      EmittedSame(a[..|a| - 1], b[..|b| - 1]);
    }
  }

  lemma RearrangedScc(g: Headers, c: seq<string>, d: seq<string>)
    requires IsScc(g, c) && multiset(c) == multiset(d)
    ensures IsScc(g, d) && Elems(d) == Elems(c)
  {
    hide Mutual, NoDuplicates;
    Permuted(c, d);
    assert c[0] in d;
  }

  /** Listing one component's members in another order gives another listing of the components. */
  lemma Rearranged(g: Headers, all: set<string>, sccs: seq<seq<string>>, i: nat, c: seq<string>)
    requires AreSccs(g, all, sccs) && i < |sccs| && multiset(c) == multiset(sccs[i])
    ensures AreSccs(g, all, sccs[i := c])
  {
    hide IsScc, Emitted;
    var other := sccs[i := c];
    RearrangedScc(g, sccs[i], c);
    EmittedSame(sccs, other);
    forall k | 0 <= k <= |other| ensures ClosedSet(g, Emitted(other[..k])) {
      EmittedSame(sccs[..k], other[..k]);
    }
  }

  /** The same headers, each once: what iterating over a set gives. */
  ghost predicate OrderOf(order: seq<string>, all: set<string>) {
    NoDuplicates(order) && Elems(order) == all
  }

  lemma {:induction false} SomeOrder(all: set<string>) returns (order: seq<string>)
    ensures OrderOf(order, all)
    decreases all
  {
    order := [];
    if all != {} {
      var x :| x in all;
      order := SomeOrder(all - {x});
      assert forall y :: y in order <==> y in Elems(order);
      order := [x] + order;
    }
  }

  /** The visit of v is begun by the outer loop. */
  ghost predicate LeadsAt(g: Headers, order: seq<string>, v: string) {
    exists i :: 0 <= i < |order| && order[i] == v && Leads(g, order, i)
  }

  /** Of two headers that are not on one cycle, an order can begin with both, each starting its own component. */
  lemma OrderLedByBoth(g: Headers, all: set<string>, x: string, y: string) returns (order: seq<string>)
    requires x in all && y in all && x != y && !Mutual(g, x, y)
    ensures OrderOf(order, all) && LeadsAt(g, order, x) && LeadsAt(g, order, y)
  {
    hide Reach;
    var rest := SomeOrder(all - {x, y});
    assert forall z :: z in rest <==> z in Elems(rest);
    var first, second := if Reach(g, x, y) then y else x, if Reach(g, x, y) then x else y;
    order := [first, second] + rest;
    assert order[0] == first && order[1] == second;
    assert Leads(g, order, 0) && Leads(g, order, 1);
  }

  /** The list of sccs[i]'s members that starts with x. */
  lemma ListStartingAt(g: Headers, order: seq<string>, sccs: seq<seq<string>>, i: nat, x: string,
                       other: seq<seq<string>>)
      returns (c: seq<string>)
    requires ClosedOver(g, Elems(order)) && AreSccs(g, Elems(order), sccs) && SccsInOrder(g, order, other)
    requires i < |sccs| && x in sccs[i] && LeadsAt(g, order, x)
    ensures c in other && StartsAt(c, x) && Elems(c) == Elems(sccs[i]) && |c| == |sccs[i]| && First(c) == First(sccs[i])
  {
    hide AreSccs, First, Reach;
    var p :| 0 <= p < |order| && order[p] == x && Leads(g, order, p);
    c :| c in other && StartsAt(c, order[p]);
    var d := SameComponent(g, Elems(order), other, sccs, c);
    assert x in Elems(c);
    SccsAreComponents(g, Elems(order), sccs);
    var k :| 0 <= k < |sccs| && sccs[k] == d;
    OnlyList(g, sccs, i, k, x);
  }

  lemma OnlyList(g: Headers, sccs: seq<seq<string>>, i: nat, k: nat, x: string)
    requires Components(g, sccs) && i < |sccs| && k < |sccs| && x in sccs[i] && x in sccs[k]
    ensures i == k
  {
  }

  /** Whatever the algorithm returns for such an order, the drawing of sccs[j] comes before that of sccs[i]. */
  lemma Overtaking(g: Headers, order: seq<string>, sccs: seq<seq<string>>, i: nat, j: nat, x: string, y: string,
                   other: seq<seq<string>>)
    requires ClosedOver(g, Elems(order)) && AreSccs(g, Elems(order), sccs) && i < |sccs| && j < |sccs| && i != j
    requires |sccs[i]| != 1 && |sccs[j]| != 1 && x in sccs[i] && y in sccs[j] && StringLess()(y, x)
    requires LeadsAt(g, order, x) && LeadsAt(g, order, y) && SccsInOrder(g, order, other)
    ensures AreSccs(g, Elems(order), other) && Drawable(g, other) && [] !in SortedLists(other)
    ensures sccs[i] != [] && sccs[j] != []
    ensures Precedes(Firsts(SortedLists(other)), First(sccs[j]), First(sccs[i]))
  {
    hide AreSccs, Components, First, Firsts, SortedLists, LexBy, LexLess, LeadsAt, Led;
    var c := ListStartingAt(g, order, sccs, i, x, other);
    var d := ListStartingAt(g, order, sccs, j, y, other);
    SccsAreComponents(g, Elems(order), other);
    StringOrder();
    LowerFirst(g, other, d, c);
  }

  lemma Different(g: Headers, all: set<string>, a: seq<seq<string>>, b: seq<seq<string>>, v: string, w: string)
    requires ClosedOver(g, all) && AreSccs(g, all, a) && AreSccs(g, all, b)
    requires Drawable(g, a) && Drawable(g, b) && [] !in SortedLists(a) && [] !in SortedLists(b)
    requires Precedes(Firsts(SortedLists(a)), v, w) && Precedes(Firsts(SortedLists(b)), w, v)
    ensures Report(g, SortedLists(a)) != Report(g, SortedLists(b))
  {
    hide AreSccs, Components, Firsts, Drawable, Report, SortedLists;
    SccsAreComponents(g, all, a);
    SccsAreComponents(g, all, b);
    SameReportIff(g, SortedLists(a), SortedLists(b));
    ComponentsApart(g, SortedLists(a));
    FirstsOnce(SortedLists(a));
    var firsts := Firsts(SortedLists(a));
    var i, j :| 0 <= i < j < |firsts| && firsts[i] == v && firsts[j] == w;
    NotBoth(firsts, i, j);
  }

  lemma Overlap(sccs: seq<seq<string>>) returns (i: nat, j: nat, x: string, y: string, x': string, y': string)
    requires !Separated(sccs) && Apart(sccs)
    ensures i < |sccs| && j < |sccs| && i != j && |sccs[i]| != 1 && |sccs[j]| != 1
    ensures x in sccs[i] && y in sccs[j] && StringLess()(y, x)
    ensures x' in sccs[i] && y' in sccs[j] && StringLess()(x', y')
  {
    hide AllBefore, LexBy, LexLess;
    var c, d :| c in sccs && d in sccs && c != d && |c| != 1 && |d| != 1 && !AllBefore(c, d) && !AllBefore(d, c);
    i :| 0 <= i < |sccs| && sccs[i] == c;
    j :| 0 <= j < |sccs| && sccs[j] == d;
    x, y := NotBefore(c, d);
    y', x' := NotBefore(d, c);
    assert x !in d && x' !in d;
    StringOrder();
  }

  lemma NotBefore(c: seq<string>, d: seq<string>) returns (x: string, y: string)
    requires !AllBefore(c, d)
    ensures x in c && y in d && !StringLess()(x, y)
  {
    x, y :| x in c && y in d && !StringLess()(x, y);
  }

  /** Two components that are not separated come in either order, depending on which headers are visited first. */
  lemma OrderDecides(g: Headers, all: set<string>, sccs: seq<seq<string>>)
      returns (order1: seq<string>, order2: seq<string>)
    requires ClosedOver(g, all) && AreSccs(g, all, sccs) && !Separated(sccs)
    ensures OrderOf(order1, all) && OrderOf(order2, all)
    ensures forall o1, o2 :: ReportedInOrder(g, order1, o1) && ReportedInOrder(g, order2, o2) ==> o1 != o2
  {
    hide AreSccs, Report, Separated, Firsts, First, SortedLists, LexBy, LexLess, LeadsAt, Led, Mutual;
    SccsAreComponents(g, all, sccs);
    ComponentsPrefix(g, sccs);
    ComponentsApart(g, sccs);
    var i, j, x, y, x', y' := Overlap(sccs);
    ApartNotMutual(g, all, sccs, i, j, x, y);
    ApartNotMutual(g, all, sccs, i, j, x', y');
    order1 := OrderLedByBoth(g, all, x, y);
    order2 := OrderLedByBoth(g, all, x', y');
    forall o1, o2 | ReportedInOrder(g, order1, o1) && ReportedInOrder(g, order2, o2) ensures o1 != o2 {
      var a :| SccsInOrder(g, order1, a) && Reported(g, all, a, o1);
      var b :| SccsInOrder(g, order2, b) && Reported(g, all, b, o2);
      Overtaking(g, order1, sccs, i, j, x, y, a);
      Overtaking(g, order2, sccs, j, i, y', x', b);
      Different(g, all, a, b, First(sccs[j]), First(sccs[i]));
    }
  }

  lemma ApartNotMutual(g: Headers, all: set<string>, sccs: seq<seq<string>>, i: nat, j: nat, x: string, y: string)
    requires AreSccs(g, all, sccs) && i < |sccs| && j < |sccs| && i != j && x in sccs[i] && y in sccs[j]
    ensures x in all && y in all && x != y && !Mutual(g, x, y)
  {
    hide Mutual;
    EmittedMember(sccs, i, x);
    EmittedMember(sccs, j, y);
    assert x in Elems(sccs[i]) && y in Elems(sccs[j]);
    assert IsScc(g, sccs[i]);
  }

  /** Whatever the order, there are lists that the algorithm may return for it. */
  lemma {:induction false} LedListing(g: Headers, order: seq<string>, n: nat, sccs: seq<seq<string>>)
      returns (led: seq<seq<string>>)
    requires n <= |order| && AreSccs(g, Elems(order), sccs)
    ensures AreSccs(g, Elems(order), led) && Led(g, order, n, led)
  {
    hide AreSccs, Led, Leads;
    led := sccs;
    if n == 0 {
      NoneLed(g, order, sccs);
    } else {
      led := LedListing(g, order, n - 1, sccs);
      if Leads(g, order, n - 1) {
        led := LedByOneMore(g, order, n - 1, led);
      } else {
        LedAlready(g, order, n - 1, led);
      }
    }
  }

  lemma NoneLed(g: Headers, order: seq<string>, sccs: seq<seq<string>>)
    ensures Led(g, order, 0, sccs)
  {
  }

  lemma LedAlready(g: Headers, order: seq<string>, n: nat, sccs: seq<seq<string>>)
    requires n < |order| && Led(g, order, n, sccs) && !Leads(g, order, n)
    ensures Led(g, order, n + 1, sccs)
  {
    hide Leads;
  }

  lemma LedByOneMore(g: Headers, order: seq<string>, n: nat, sccs: seq<seq<string>>) returns (led: seq<seq<string>>)
    requires n < |order| && AreSccs(g, Elems(order), sccs) && Led(g, order, n, sccs) && Leads(g, order, n)
    ensures AreSccs(g, Elems(order), led) && Led(g, order, n + 1, led)
  {
    hide Reach, SccsOk, Fronted;
    var v := order[n];
    assert v in Elems(order);
    var k := EmittedFrom(sccs, v);
    var c := Fronted(sccs[k], v);
    led := sccs[k := c];
    Rearranged(g, Elems(order), sccs, k, c);
    assert led[k] == c && StartsAt(c, v);
    forall i | 0 <= i < n && Leads(g, order, i) ensures exists d :: d in led && StartsAt(d, order[i]) {
      var d :| d in sccs && StartsAt(d, order[i]);
      var m :| 0 <= m < |sccs| && sccs[m] == d;
      if m == k {
        SccReaches(g, Elems(order), sccs, k, order[i], v);
        assert false;
      }
      assert led[m] == d;
    }
  }

  lemma SccReaches(g: Headers, all: set<string>, sccs: seq<seq<string>>, k: nat, x: string, y: string)
    requires AreSccs(g, all, sccs) && k < |sccs| && x in sccs[k] && y in sccs[k]
    ensures Reach(g, x, y)
  {
    assert IsScc(g, sccs[k]);
    assert Mutual(g, x, y);
  }

  lemma SomeReport(g: Headers, all: set<string>, sccs: seq<seq<string>>, order: seq<string>)
      returns (output: seq<string>)
    requires ClosedOver(g, all) && AreSccs(g, all, sccs) && OrderOf(order, all)
    ensures ReportedInOrder(g, order, output)
  {
    hide AreSccs, Led, Report;
    var led := LedListing(g, order, |order|, sccs);
    SccsAreComponents(g, all, led);
    output := Report(g, SortedLists(led));
    assert Reported(g, all, led, output);
  }

  /**
   * The report does not depend on the order in which the headers are visited exactly if, of any two cyclic components,
   * all members of one sort before all members of the other.
   */
  lemma UniqueReportIff(g: Headers, all: set<string>, sccs: seq<seq<string>>)
    requires ClosedOver(g, all) && AreSccs(g, all, sccs)
    ensures Separated(sccs) <==>
      forall order1, order2, o1, o2 ::
        (OrderOf(order1, all) && OrderOf(order2, all)
         && ReportedInOrder(g, order1, o1) && ReportedInOrder(g, order2, o2)) ==> o1 == o2
  {
    hide AreSccs, Report, Separated;
    if Separated(sccs) {
      forall order1, order2, o1, o2 | OrderOf(order1, all) && OrderOf(order2, all)
        && ReportedInOrder(g, order1, o1) && ReportedInOrder(g, order2, o2)
        ensures o1 == o2
      {
        var a :| SccsInOrder(g, order1, a) && Reported(g, all, a, o1);
        var b :| SccsInOrder(g, order2, b) && Reported(g, all, b, o2);
        SccsAreComponents(g, all, sccs);
        SeparatedUnique(g, all, sccs, a);
        SeparatedUnique(g, all, sccs, b);
      }
    } else {
      var order1, order2 := OrderDecides(g, all, sccs);
      var o1 := SomeReport(g, all, sccs, order1);
      var o2 := SomeReport(g, all, sccs, order2);
      assert o1 != o2;
    }
  }

  /** A graph of two cycles, one inside the other in the alphabet. */
  function TwoCycles(): Headers {
    map["a" := {"d"}, "d" := {"a"}, "b" := {"c"}, "c" := {"b"}]
  }

  lemma InCycles(x: string, y: string)
    requires x in TwoCycles() && y in TwoCycles()
    ensures Mutual(TwoCycles(), x, y) <==> (x in {"a", "d"} <==> y in {"a", "d"})
  {
    var g := TwoCycles();
    ReachSelf(g, x);
    if x in {"a", "d"} <==> y in {"a", "d"} {
      if x != y {
        ReachEdge(g, x, y);
        ReachEdge(g, y, x);
      }
    } else if Mutual(g, x, y) {
      if x in {"a", "d"} {
        ReachStaysInside(g, {"a", "d"}, x, y);
      } else {
        ReachStaysInside(g, {"a", "d"}, y, x);
      }
    }
  }

  lemma PairListed(g: Headers, c: seq<string>, d: seq<string>)
    requires IsScc(g, c) && IsScc(g, d) && Elems(c) !! Elems(d)
    requires ClosedSet(g, {}) && ClosedSet(g, Elems(c)) && ClosedSet(g, Elems(c) + Elems(d))
    ensures AreSccs(g, Elems(c) + Elems(d), [c, d])
  {
    hide IsScc, ClosedSet, Elems;
    var sccs := [c, d];
    assert sccs[..0] == [] && sccs[..1] == [c] && sccs[..2] == sccs;
    EmittedMore([], c);
    EmittedMore([c], d);
    assert [] + [c] == [c] && [c] + [d] == sccs;
    assert Emitted<string>([]) == {} && Emitted([c]) == Elems(c);
  }

  lemma TwoCyclesListed(c: seq<string>, d: seq<string>)
    requires NoDuplicates(c) && NoDuplicates(d) && Elems(c) == {"a", "d"} && Elems(d) == {"b", "c"}
    ensures ClosedOver(TwoCycles(), {"a", "d"} + {"b", "c"})
    ensures AreSccs(TwoCycles(), {"a", "d"} + {"b", "c"}, [c, d])
  {
    hide IsScc, Mutual, NoDuplicates, Elems;
    CyclesAreSccs(TwoCycles(), c);
    CyclesAreSccs(TwoCycles(), d);
    hide AreSccs;
    PairListed(TwoCycles(), c, d);
  }

  lemma CyclesAreSccs(g: Headers, c: seq<string>)
    requires g == TwoCycles() && NoDuplicates(c) && (Elems(c) == {"a", "d"} || Elems(c) == {"b", "c"})
    ensures IsScc(g, c)
  {
    assert forall x :: x in c <==> x in Elems(c);
    forall x | x in c ensures forall y :: y in c <==> Mutual(g, x, y) {
      forall y ensures y in c <==> Mutual(g, x, y) {
        if y in g {
          InCycles(x, y);
        } else if Mutual(g, x, y) {
          ReachStaysInside(g, g.Keys, x, y);
        }
      }
    }
  }

  lemma CyclesOrdered(order: seq<string>, v: string)
    requires order == [v, if v == "a" then "d" else "a", "b", "c"] && v in {"a", "d"}
    ensures Elems(order) == {"a", "d"} + {"b", "c"}
    ensures LeadsAt(TwoCycles(), order, v) && LeadsAt(TwoCycles(), order, "b")
  {
    hide Reach;
    assert order[0] == v && Leads(TwoCycles(), order, 0);
    ReachStays(TwoCycles(), "a", "b");
    ReachStays(TwoCycles(), "d", "b");
    assert order[2] == "b" && Leads(TwoCycles(), order, 2);
  }

  lemma ReachStays(g: Headers, x: string, y: string)
    requires g == TwoCycles() && x in {"a", "d"} && y in {"b", "c"}
    ensures !Reach(g, x, y)
  {
    if Reach(g, x, y) {
      ReachStaysInside(g, {"a", "d"}, x, y);
    }
  }

  /** Two runs on that graph, which differ in the header visited first, and two different reports. */
  method TwoRuns() returns (o1: seq<string>, o2: seq<string>)
    ensures o1 != o2
  {
    hide AreSccs, Led, LeadsAt, TwoCycles, Report, Firsts, First, SortedLists, LexBy, LexLess, Elems, Drawable;
    ghost var sccs := [["a", "d"], ["b", "c"]];
    ghost var all := {"a", "d"} + {"b", "c"};
    PairElems();
    TwoCyclesListed(["a", "d"], ["b", "c"]);
    CyclesOrdered(["a", "d", "b", "c"], "a");
    CyclesOrdered(["d", "a", "b", "c"], "d");
    o1 := FindCycles(["a", "d", "b", "c"], TwoCycles());
    o2 := FindCycles(["d", "a", "b", "c"], TwoCycles());
    ghost var a :| SccsInOrder(TwoCycles(), ["a", "d", "b", "c"], a) && Reported(TwoCycles(), all, a, o1);
    ghost var b :| SccsInOrder(TwoCycles(), ["d", "a", "b", "c"], b) && Reported(TwoCycles(), all, b, o2);
    Overtaking(TwoCycles(), ["a", "d", "b", "c"], sccs, 1, 0, "b", "a", a);
    Overtaking(TwoCycles(), ["d", "a", "b", "c"], sccs, 0, 1, "d", "b", b);
    Different(TwoCycles(), all, a, b, First(sccs[0]), First(sccs[1]));
  }

  lemma PairElems()
    ensures Elems(["a", "d"]) == {"a", "d"} && Elems(["b", "c"]) == {"b", "c"}
    ensures StringLess()("a", "b") && StringLess()("b", "d")
  {
    assert StringLess()("a", "b") && StringLess()("b", "d");
  }
}
