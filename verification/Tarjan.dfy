/** tarjan and strongconnect of config/check_spidermonkey_style.py. */
module Tarjan {
  import opened Graphs
  import opened Sequences
  import opened TarjanState

  /** The position of v on the stack. */
  function StackIndex<T(==)>(stack: seq<T>, v: T): (i: nat)
    requires v in stack
    ensures i < |stack| && stack[i] == v
  {
    if stack[0] == v then 0 else 1 + StackIndex(stack[1..], v)
  }

  ghost predicate LowlinksKept<T>(m: map<T, nat>, m': map<T, nat>) {
    forall x :: x in m ==> x in m' && m'[x] == m[x]
  }

  /** v reaches every vertex found since idx0. */
  ghost predicate FoundFrom<T(!new)>(g: Graph<T>, idx0: map<T, nat>, idx: map<T, nat>, v: T) {
    forall x :: x in idx && x !in idx0 ==> Reach(g, v, x)
  }

  lemma FoundFirst<T(!new)>(g: Graph<T>, idx0: map<T, nat>, v: T, index: nat)
    ensures FoundFrom(g, idx0, idx0[v := index], v)
  {
    hide Reach;
    ReachSelf(g, v);
  }

  /** What a successor finds, v finds. */
  lemma FoundFurther<T(!new)>(g: Graph<T>, idx0: map<T, nat>, idx1: map<T, nat>, idx2: map<T, nat>, v: T, w: T)
    requires FoundFrom(g, idx0, idx1, v) && FoundFrom(g, idx1, idx2, w) && v in g && w in g[v]
    ensures FoundFrom(g, idx0, idx2, v)
  {
    hide Reach;
    ReachEdge(g, v, w);
    forall x | x in idx2 && x !in idx0 ensures Reach(g, v, x) {
      if x !in idx1 {
        ReachTrans(g, v, w, x);
      }
    }
  }

  ghost predicate StartsAt<T>(c: seq<T>, v: T) {
    c != [] && c[0] == v
  }

  class Tarjan<T(==,!new)> {
    const edges: Graph<T>
    var vertexIndex: map<T, nat>
    var vertexLowlink: map<T, nat>
    var stack: seq<T>
    var allSccs: seq<seq<T>>

    ghost function St(): State<T>
      reads this
    {
      State(vertexIndex, stack, allSccs)
    }

    constructor (edges: Graph<T>)
      ensures this.edges == edges
      ensures vertexIndex == map[] && vertexLowlink == map[] && stack == [] && allSccs == []
    {
      this.edges := edges;
      vertexIndex := map[];
      vertexLowlink := map[];
      stack := [];
      allSccs := [];
    }

    /** The visit of v, begun in s0 at the given index, has handled all successors but those in todo. */
    ghost predicate Scanning(s0: State<T>, lowlinks0: map<T, nat>, gray: set<T>, vs: set<T>, v: T, index: nat,
                             index': nat, todo: set<T>)
      reads this
    {
      && v in edges && index < index' && vertexIndex.Keys <= vs
      && s0.idx.Keys + {v} <= vertexIndex.Keys && vertexLowlink.Keys == vertexIndex.Keys
      && v in vertexIndex && v in vertexLowlink && LowlinksKept(lowlinks0, vertexLowlink)
      && Inv(edges, St(), gray + {v}, index') && Under(s0, St(), index, v)
      && |s0.stack| < |stack| && stack[|s0.stack|] == v
      && Scanned(edges, St(), |s0.stack|, vertexLowlink[v], todo)
      && FoundFrom(edges, s0.idx, vertexIndex, v)
    }

    /** gray: the vertices whose visits are going on; vs: a set of vertices the edges stay in. */
    method StrongConnect(v: T, index: nat, ghost gray: set<T>, ghost vs: set<T>) returns (index': nat)
      requires ClosedOver(edges, vs) && v in vs && vertexIndex.Keys <= vs
      requires Inv(edges, St(), gray, index) && vertexLowlink.Keys == vertexIndex.Keys
      requires v !in vertexIndex && forall x :: x in stack ==> Reach(edges, x, v)
      modifies this
      ensures index < index' && vertexIndex.Keys <= vs
      ensures Inv(edges, St(), gray, index') && vertexLowlink.Keys == vertexIndex.Keys
      ensures LowlinksKept(old(vertexLowlink), vertexLowlink)
      ensures v in vertexLowlink && Visited(edges, old(St()), St(), index, v, vertexLowlink[v])
      ensures FoundFrom(edges, old(vertexIndex), vertexIndex, v)
      ensures stack == old(stack) ==> exists c :: c in allSccs && StartsAt(c, v)
      decreases vs - vertexIndex.Keys, 0
    {
      hide Inv, Visited, Scanned, Shape, Reach, AtEnd, Under, FoundFrom, StartsAt;
      ghost var s0, lowlinks0 := St(), vertexLowlink;
      PushKeeps(edges, s0, gray, index, v);
      ScanStarts(edges, s0, index, v);
      UnderStarts(s0, index, v);
      FoundFirst(edges, vertexIndex, v, index);
      vertexIndex := vertexIndex[v := index];
      vertexLowlink := vertexLowlink[v := index];
      index' := index + 1;
      stack := stack + [v];
      var todo := edges[v];
      while todo != {}
        invariant todo <= edges[v] && Scanning(s0, lowlinks0, gray, vs, v, index, index', todo)
        decreases todo
      {
        var w :| w in todo;
        index' := Successor(v, w, index', s0, lowlinks0, gray, vs, index, todo);
        todo := todo - {w};
      }
      Conclude(v, s0, lowlinks0, gray, vs, index, index');
    }

    /** The loop body: one successor w of v. */
    method Successor(v: T, w: T, index: nat, ghost s0: State<T>, ghost lowlinks0: map<T, nat>, ghost gray: set<T>,
                     ghost vs: set<T>, ghost index0: nat, ghost todo: set<T>)
      returns (index': nat)
      requires ClosedOver(edges, vs) && Inv(edges, s0, gray, index0) && v in vs
      requires Scanning(s0, lowlinks0, gray, vs, v, index0, index, todo) && w in edges[v]
      requires v !in lowlinks0
      modifies this
      ensures Scanning(s0, lowlinks0, gray, vs, v, index0, index', todo - {w})
      ensures old(vertexIndex).Keys <= vertexIndex.Keys
      decreases vs - vertexIndex.Keys, 1
    {
      hide Inv, Visited, Scanned, Shape, Reach, AtEnd, Under, FoundFrom;
      ghost var s, low, k := St(), vertexLowlink[v], |s0.stack|;
      index' := index;
      if w !in vertexIndex {
        ReadyToVisit(edges, s0, s, gray, index0, index, v, w);
        index' := StrongConnect(w, index, gray + {v}, vs);
        FoundFurther(edges, s0.idx, s.idx, vertexIndex, v, w);
        var lowW := vertexLowlink[w];
        vertexLowlink := vertexLowlink[v := if lowW < vertexLowlink[v] then lowW else vertexLowlink[v]];
        AfterVisit(edges, s0, s, St(), gray, index0, index, v, low, todo, w, lowW);
      } else if w in stack {
        OnStackScanned(edges, s, gray + {v}, index, k, low, todo, w);
        vertexLowlink := vertexLowlink[v := if vertexIndex[w] < vertexLowlink[v] then vertexIndex[w]
                                            else vertexLowlink[v]];
      } else {
        ScanEmitted(edges, s, k, low, todo, w);
      }
    }

    /** If v is the root of a component, the component is popped and emitted. */
    method Conclude(v: T, ghost s0: State<T>, ghost lowlinks0: map<T, nat>, ghost gray: set<T>, ghost vs: set<T>,
                    ghost index: nat, ghost index': nat)
      requires Inv(edges, s0, gray, index) && Scanning(s0, lowlinks0, gray, vs, v, index, index', {})
      modifies this`stack, this`allSccs
      ensures Inv(edges, St(), gray, index')
      ensures v in vertexLowlink && Visited(edges, s0, St(), index, v, vertexLowlink[v])
      ensures stack == s0.stack ==> exists c :: c in allSccs && StartsAt(c, v)
    {
      hide Inv, Visited, StackIndex, Tarjan.Scanning, Popped;
      ScanDone(v, s0, lowlinks0, gray, vs, index, index');
      if vertexLowlink[v] == vertexIndex[v] {
        var i := StackIndex(stack, v);
        PoppedState(i);
        var scc := stack[i..];
        stack := stack[..i];
        allSccs := allSccs + [scc];
        assert scc in allSccs && StartsAt(scc, v);
      }
    }

    lemma PoppedState(i: nat)
      requires i < |stack|
      ensures Popped(St(), i) == State(vertexIndex, stack[..i], allSccs + [stack[i..]])
    {
    }

    lemma ScanDone(v: T, s0: State<T>, lowlinks0: map<T, nat>, gray: set<T>, vs: set<T>, index: nat, index': nat)
      requires Inv(edges, s0, gray, index) && Scanning(s0, lowlinks0, gray, vs, v, index, index', {})
      ensures v in vertexIndex && v in vertexLowlink && v in stack && stack != s0.stack
      ensures vertexLowlink[v] == vertexIndex[v] ==>
        var next := Popped(St(), StackIndex(stack, v));
        Inv(edges, next, gray, index') && Visited(edges, s0, next, index, v, vertexLowlink[v])
      ensures vertexLowlink[v] != vertexIndex[v] ==>
        Inv(edges, St(), gray, index') && Visited(edges, s0, St(), index, v, vertexLowlink[v])
    {
      hide Inv, Visited, Scanned, Under, LowlinksKept, StackIndex, Popped;
      ScanConcludes(edges, s0, St(), gray, index, index', v, vertexLowlink[v]);
    }
  }

  /** What the end of a scan amounts to: popping at a root, and leaving the stack alone otherwise. */
  lemma ScanConcludes<T(!new)>(g: Graph<T>, s0: State<T>, s: State<T>, gray: set<T>, index: nat, index': nat, v: T,
                               low: nat)
    requires Inv(g, s0, gray, index) && Inv(g, s, gray + {v}, index') && Under(s0, s, index, v) && v in g
    requires |s0.stack| < |s.stack| && s.stack[|s0.stack|] == v && Scanned(g, s, |s0.stack|, low, {})
    ensures v in s.idx && v in s.stack
    ensures low == s.idx[v] ==>
      var next := Popped(s, StackIndex(s.stack, v));
      Inv(g, next, gray, index') && Visited(g, s0, next, index, v, low)
    ensures low != s.idx[v] ==> Inv(g, s, gray, index') && Visited(g, s0, s, index, v, low)
  {
    hide Inv, Visited, Scanned, Under, AtEnd, Popped, StackIndex;
    var k := |s0.stack|;
    ScanIsOver(g, s0, s, gray, index, index', v, low);
    OnceOnStack(g, s, gray + {v}, v, k, index');
    if low == s.idx[v] {
      VisitPops(g, s0, s, index, v);
      PopKeeps(g, s, gray, index', k, index);
    } else {
      VisitStays(g, s0, s, gray, index, v, low);
      StayKeeps(g, s, gray, index', k, low);
    }
  }

  lemma OnceOnStack<T(!new)>(g: Graph<T>, s: State<T>, gray: set<T>, v: T, k: nat, index: nat)
    requires Inv(g, s, gray, index) && k < |s.stack| && s.stack[k] == v
    ensures v in s.stack && StackIndex(s.stack, v) == k
  {
    hide Reach, Anchored, StackReaches, SccsOk, BlackClosed;
    var i := StackIndex(s.stack, v);
  }

  lemma OnStackScanned<T(!new)>(g: Graph<T>, s: State<T>, gray: set<T>, index: nat, k: nat, low: nat, todo: set<T>,
                                w: T)
    requires Inv(g, s, gray, index) && k < |s.stack| && s.stack[k] in g && Scanned(g, s, k, low, todo)
    requires w in g[s.stack[k]] && w in s.stack && w in s.idx
    ensures Scanned(g, s, k, if s.idx[w] < low then s.idx[w] else low, todo - {w})
  {
    ScanOnStack(g, s, index, k, low, todo, w);
  }

  /** What the algorithm promises: the strongly connected components of vs, each after all that it reaches. */
  ghost predicate AreSccs<T(!new)>(g: Graph<T>, vs: set<T>, sccs: seq<seq<T>>) {
    && Emitted(sccs) == vs
    && SccsOk(g, sccs)
  }

  /** No vertex before the i-th one reaches it: nothing visited before leads to it. */
  ghost predicate Leads<T(!new)>(g: Graph<T>, order: seq<T>, i: nat)
    requires i < |order|
  {
    forall j :: 0 <= j < i ==> !Reach(g, order[j], order[i])
  }

  /** Each of the first n vertices that is not led to starts the list of its component. */
  ghost predicate Led<T(!new)>(g: Graph<T>, order: seq<T>, n: nat, sccs: seq<seq<T>>)
    requires n <= |order|
  {
    forall i :: 0 <= i < n && Leads(g, order, i) ==> exists c :: c in sccs && StartsAt(c, order[i])
  }

  /** What the algorithm promises of a run that visits the vertices in this order. */
  ghost predicate SccsInOrder<T(!new)>(g: Graph<T>, order: seq<T>, sccs: seq<seq<T>>) {
    AreSccs(g, Elems(order), sccs) && Led(g, order, |order|, sccs)
  }

  /** Every vertex visited so far is reached from one of the first n. */
  ghost predicate FoundFromFirst<T(!new)>(g: Graph<T>, order: seq<T>, n: nat, idx: map<T, nat>)
    requires n <= |order|
  {
    forall x :: x in idx ==> exists j :: 0 <= j < n && Reach(g, order[j], x)
  }

  lemma NothingFound<T(!new)>(g: Graph<T>, order: seq<T>)
    ensures Inv(g, State(map[], [], []), {}, 0) && order[..0] == []
    ensures FoundFromFirst(g, order, 0, map[]) && Led(g, order, 0, [])
  {
  }

  /** One visit more: what it finds is reached from the vertex it starts at, and that vertex starts a list. */
  lemma FoundNext<T(!new)>(g: Graph<T>, order: seq<T>, n: nat, s: State<T>, s': State<T>, index: nat, low: nat)
    requires n < |order| && FoundFromFirst(g, order, n, s.idx) && Led(g, order, n, s.sccs)
    requires FoundFrom(g, s.idx, s'.idx, order[n]) && Visited(g, s, s', index, order[n], low)
    requires exists c :: c in s'.sccs && StartsAt(c, order[n])
    ensures FoundFromFirst(g, order, n + 1, s'.idx) && Led(g, order, n + 1, s'.sccs)
  {
    hide Reach, EdgesBack, LowTarget, Leads, StartsAt;
    forall x | x in s'.idx ensures exists j :: 0 <= j < n + 1 && Reach(g, order[j], x) {
      if x in s.idx {
        var j :| 0 <= j < n && Reach(g, order[j], x);
      }
    }
    assert forall c :: c in s.sccs ==> c in s'.sccs;
  }

  lemma FoundStill<T(!new)>(g: Graph<T>, order: seq<T>, n: nat, idx: map<T, nat>)
    requires n < |order| && FoundFromFirst(g, order, n, idx)
    ensures FoundFromFirst(g, order, n + 1, idx)
  {
    hide Reach;
    forall x | x in idx ensures exists j :: 0 <= j < n + 1 && Reach(g, order[j], x) {
      var j :| 0 <= j < n && Reach(g, order[j], x);
    }
  }

  /** A vertex already found was led to. */
  lemma FoundBefore<T(!new)>(g: Graph<T>, order: seq<T>, n: nat, s: State<T>)
    requires n < |order| && FoundFromFirst(g, order, n, s.idx) && Led(g, order, n, s.sccs) && order[n] in s.idx
    ensures FoundFromFirst(g, order, n + 1, s.idx) && Led(g, order, n + 1, s.sccs)
  {
    hide Reach, StartsAt, Leads;
    FoundStill(g, order, n, s.idx);
    NotLeading(g, order, n, s.idx);
  }

  lemma NotLeading<T(!new)>(g: Graph<T>, order: seq<T>, n: nat, idx: map<T, nat>)
    requires n < |order| && FoundFromFirst(g, order, n, idx) && order[n] in idx
    ensures !Leads(g, order, n)
  {
    hide Reach;
    var j :| 0 <= j < n && Reach(g, order[j], order[n]);
  }

  lemma AllEmitted<T(!new)>(g: Graph<T>, s: State<T>, index: nat, order: seq<T>)
    requires Inv(g, s, {}, index) && s.stack == [] && s.idx.Keys == Elems(order)
    ensures AreSccs(g, Elems(order), s.sccs)
  {
    hide SccsOk;
    assert Elems<T>([]) == {};
  }

  /** The loop over the vertices, which are visited in the order given. */
  method FindSccs<T(==,!new)>(order: seq<T>, edges: Graph<T>) returns (sccs: seq<seq<T>>)
    requires ClosedOver(edges, Elems(order))
    ensures SccsInOrder(edges, order, sccs)
  {
    hide Inv, Reach, Led, FoundFromFirst, FoundFrom, Visited;
    var t := new Tarjan(edges);
    var index := 0;
    NothingFound(edges, order);
    for i := 0 to |order|
      invariant t.edges == edges && t.vertexIndex.Keys <= Elems(order)
      invariant Inv(edges, t.St(), {}, index) && t.vertexLowlink.Keys == t.vertexIndex.Keys
      invariant t.stack == [] && Elems(order[..i]) <= t.vertexIndex.Keys
      invariant FoundFromFirst(edges, order, i, t.vertexIndex) && Led(edges, order, i, t.allSccs)
    {
      var v := order[i];
      ghost var s := t.St();
      assert v in Elems(order) && order[..i + 1] == order[..i] + [v];
      if v !in t.vertexIndex {
        ghost var start := index;
        index := t.StrongConnect(v, index, {}, Elems(order));
        NothingGray(edges, t.St(), index);
        FoundNext(edges, order, i, s, t.St(), start, t.vertexLowlink[v]);
      } else {
        FoundBefore(edges, order, i, t.St());
      }
    }
    assert order[..|order|] == order;
    AllEmitted(edges, t.St(), index, order);
    return t.allSccs;
  }

  lemma NonEmptyHasMember<T>(s: seq<T>)
    ensures s != [] ==> exists x :: x in s
  {
    if s != [] {
      assert s[0] in s;
    }
  }

  lemma NothingGray<T(!new)>(g: Graph<T>, s: State<T>, index: nat)
    requires Inv(g, s, {}, index)
    ensures s.stack == []
  {
    assert forall x :: x in s.stack ==> exists y :: Anchors(g, s, {}, x, y);
    NonEmptyHasMember(s.stack);
  }

  /** The lists partition the vertices. */
  lemma Partition<T(!new)>(g: Graph<T>, vs: set<T>, sccs: seq<seq<T>>, x: T)
    requires AreSccs(g, vs, sccs) && x in vs
    ensures exists i :: 0 <= i < |sccs| && x in sccs[i]
    ensures forall i, j :: 0 <= i < |sccs| && 0 <= j < |sccs| && x in sccs[i] && x in sccs[j] ==> i == j
  {
    var i := EmittedFrom(sccs, x);
    forall i, j | 0 <= i < |sccs| && 0 <= j < |sccs| && x in sccs[i] && x in sccs[j]
      ensures i == j
    {
      assert x in Elems(sccs[i]) && x in Elems(sccs[j]);
    }
  }

  /** Two vertices share a list exactly if each reaches the other. */
  lemma SameListIffMutual<T(!new)>(g: Graph<T>, vs: set<T>, sccs: seq<seq<T>>, x: T, y: T)
    requires AreSccs(g, vs, sccs) && x in vs
    ensures (exists i :: 0 <= i < |sccs| && x in sccs[i] && y in sccs[i]) <==> Mutual(g, x, y)
  {
    var i := EmittedFrom(sccs, x);
    assert IsScc(g, sccs[i]);
  }

  /** A component is emitted only after every component it reaches. */
  lemma EmittedAfterReached<T(!new)>(g: Graph<T>, vs: set<T>, sccs: seq<seq<T>>, i: nat, j: nat, x: T, y: T)
    requires AreSccs(g, vs, sccs) && i < |sccs| && j < |sccs|
    requires x in sccs[i] && y in sccs[j] && Reach(g, x, y)
    ensures j <= i
  {
    var done := sccs[..i + 1];
    EmittedMember(done, i, x);
    ReachStaysInside(g, Emitted(done), x, y);
    var k := EmittedFrom(done, y);
    assert y in Elems(sccs[k]) && y in Elems(sccs[j]);
  }
}
