/** Any number of lists sharing a population of elements, over any run of operations. */
module LinkedListRuns {
  import opened LinkedElements
  import opened LinkedLists
  import opened Sequences

  datatype Op =
    | InsertFront(list: LinkedList, elem: Element)
    | InsertBack(list: LinkedList, elem: Element)
    | SetNext(list: LinkedList, at: Element, elem: Element)
    | SetPrevious(list: LinkedList, at: Element, elem: Element)
    | Remove(list: LinkedList, at: Element)
    | PopFirst(list: LinkedList)
    | PopLast(list: LinkedList)
    | Clear(list: LinkedList)
    | MoveElement(list: LinkedList, at: Element, elem: Element)
    | MoveList(list: LinkedList, from: LinkedList)

  /** What each list holds. */
  type State = map<LinkedList, seq<Element>>

  ghost predicate Free(s: State, e: Element) {
    !e.isSentinel && forall l :: l in s ==> e !in s[l]
  }

  /** What the assertions of the original demand. */
  ghost predicate Allowed(s: State, elems: set<Element>, op: Op) {
    && op.list in s
    && (op.InsertFront? || op.InsertBack? || op.SetNext? || op.SetPrevious? || op.MoveElement? ==>
        op.elem in elems && Free(s, op.elem))
    && (op.SetNext? || op.SetPrevious? || op.Remove? || op.MoveElement? ==> op.at in s[op.list])
    && (op.MoveList? ==> op.from in s && op.from != op.list && s[op.list] == [])
  }

  /** The place of an element. */
  ghost function IndexOf(s: seq<Element>, e: Element): (i: nat)
    requires e in s
    ensures i < |s| && s[i] == e && e !in s[..i]
  {
    if s[0] == e then 0 else IndexOf(s[1..], e) + 1
  }

  /** The sequence edit an operation stands for. */
  ghost function Edited(s: seq<Element>, op: Op, other: seq<Element>): seq<Element>
    requires op.SetNext? || op.SetPrevious? || op.Remove? || op.MoveElement? ==> op.at in s
  {
    match op
    case InsertFront(_, e) => [e] + s
    case InsertBack(_, e) => s + [e]
    case SetNext(_, at, e) => var i := IndexOf(s, at); s[..i + 1] + [e] + s[i + 1..]
    case SetPrevious(_, at, e) => var i := IndexOf(s, at); s[..i] + [e] + s[i..]
    case Remove(_, at) => var i := IndexOf(s, at); s[..i] + s[i + 1..]
    case PopFirst(_) => if s == [] then [] else s[1..]
    case PopLast(_) => if s == [] then [] else s[..|s| - 1]
    case Clear(_) => []
    case MoveElement(_, at, e) => s[IndexOf(s, at) := e]
    case MoveList(_, _) => other
  }

  ghost function After(s: State, elems: set<Element>, op: Op): State
    requires Allowed(s, elems, op)
  {
    if op.MoveList? then s[op.list := s[op.from]][op.from := []]
    else s[op.list := Edited(s[op.list], op, [])]
  }

  ghost function Spelled(lists: set<LinkedList>): State
    reads lists
  {
    map l | l in lists :: l.members
  }

  /** Every list is a proper ring, no two share a node, and an element in no list is loose. */
  ghost predicate World(lists: set<LinkedList>, elems: set<Element>)
    reads lists, elems
  {
    && (forall l :: l in lists ==> Elems(l.Nodes()) <= elems && l.Valid())
    && (forall l, m :: l in lists && m in lists && l != m ==> Elems(l.Nodes()) !! Elems(m.Nodes()))
    && (forall e :: e in elems && Free(Spelled(lists), e) ==> e.Loose())
  }

  /** In a world, lists hold exactly one reference on each member and none on any other element. */
  lemma ReferencesBalance(lists: set<LinkedList>, elems: set<Element>, e: Element)
    requires World(lists, elems) && e in elems && !e.isSentinel
    ensures e.listRefs == if Free(Spelled(lists), e) then 0 else 1
  {
    if !Free(Spelled(lists), e) {
      var l :| l in lists && e in l.members;
      var i :| 0 <= i < |l.members| && l.members[i] == e;
      assert MemberOk(l.members[i]);
    }
  }

  /** The element an operation brings into a list. */
  ghost function Newcomer(op: Op): set<Element> {
    if op.InsertFront? || op.InsertBack? || op.SetNext? || op.SetPrevious? || op.MoveElement? then {op.elem} else {}
  }

  /** The members an operation takes out. */
  ghost function Leaving(s: seq<Element>, op: Op): set<Element> {
    match op
    case Remove(_, at) => {at}
    case MoveElement(_, at, _) => {at}
    case PopFirst(_) => if s == [] then {} else {s[0]}
    case PopLast(_) => if s == [] then {} else {s[|s| - 1]}
    case Clear(_) => Elems(s)
    case _ => {}
  }

  lemma InsertedKeeps(s: seq<Element>, p: nat, e: Element, k: nat)
    requires p <= |s| && k < |s|
    ensures s[k] in s[..p] + [e] + s[p..]
  {
    assert (s[..p] + [e] + s[p..])[if k < p then k else k + 1] == s[k];
  }

  lemma RemovedKeeps(s: seq<Element>, p: nat, k: nat)
    requires p < |s| && k < |s| && k != p
    ensures s[k] in s[..p] + s[p + 1..]
  {
    assert (s[..p] + s[p + 1..])[if k < p then k else k - 1] == s[k];
  }

  /** Every member but those leaving is somewhere in the edited sequence. */
  lemma StaysIn(s: seq<Element>, op: Op, k: nat)
    requires !op.MoveList? && k < |s| && s[k] !in Leaving(s, op)
    requires op.SetNext? || op.SetPrevious? || op.Remove? || op.MoveElement? ==> op.at in s
    ensures s[k] in Edited(s, op, [])
  {
    var t := Edited(s, op, []);
    match op
    case InsertFront(_, _) => assert t[k + 1] == s[k];
    case InsertBack(_, _) => assert t[k] == s[k];
    case SetNext(_, at, e) => InsertedKeeps(s, IndexOf(s, at) + 1, e, k);
    case SetPrevious(_, at, e) => InsertedKeeps(s, IndexOf(s, at), e, k);
    case Remove(_, at) => RemovedKeeps(s, IndexOf(s, at), k);
    case PopFirst(_) => assert t[k - 1] == s[k];
    case PopLast(_) => assert t[k] == s[k];
    case MoveElement(_, at, _) => assert t[k] == s[k];
    case Clear(_) =>
    case MoveList(_, _) =>
  }

  lemma EditedElements(s: seq<Element>, op: Op)
    requires !op.MoveList?
    requires op.SetNext? || op.SetPrevious? || op.Remove? || op.MoveElement? ==> op.at in s
    ensures forall e :: e in Edited(s, op, []) ==> e in s || e in Newcomer(op)
    ensures forall e :: e in Newcomer(op) ==> e in Edited(s, op, [])
    ensures forall e :: e in s ==> e in Edited(s, op, []) || e in Leaving(s, op)
  {
    forall e | e in s && e !in Leaving(s, op) ensures e in Edited(s, op, []) {
      StaysIn(s, op, IndexOf(s, e));
    }
    if op.SetNext? {
      assert Edited(s, op, [])[IndexOf(s, op.at) + 1] == op.elem;
    } else if op.SetPrevious? || op.MoveElement? {
      assert Edited(s, op, [])[IndexOf(s, op.at)] == op.elem;
    }
  }

  /** The operations on one list. */
  method Apply(op: Op)
    requires !op.MoveList? && op.list.Valid()
    requires forall e :: e in Newcomer(op) ==> !e.isSentinel && e.Loose()
    requires op.SetNext? || op.SetPrevious? || op.Remove? || op.MoveElement? ==> op.at in op.list.members
    modifies op.list, Elems(op.list.Nodes()), Newcomer(op)
    ensures op.list.Valid() && op.list.members == Edited(old(op.list.members), op, [])
    ensures forall e :: e in Leaving(old(op.list.members), op) ==> e.Loose()
  {
    match op
    case InsertFront(list, e) =>
      list.InsertFront(e);
    case InsertBack(list, e) =>
      list.InsertBack(e);
    case SetNext(list, at, e) =>
      list.InsertAfter(at, e, IndexOf(list.members, at));
    case SetPrevious(list, at, e) =>
      list.InsertBefore(at, e, IndexOf(list.members, at));
    case Remove(list, at) =>
      list.RemoveMember(at, IndexOf(list.members, at));
    case PopFirst(list) =>
      var _ := list.PopFirst();
    case PopLast(list) =>
      var _ := list.PopLast();
    case Clear(list) =>
      list.Clear();
    case MoveElement(list, at, e) =>
      list.MoveMember(e, at, IndexOf(list.members, at));
    case MoveList(_, _) =>
  }

  ghost predicate Owned(lists: set<LinkedList>, e: Element)
    reads lists
  {
    exists l :: l in lists && e in l.members
  }

  twostate lemma ValidKept(l: LinkedList)
    requires old(l.Valid()) && l.members == old(l.members)
    requires forall e :: e in l.Nodes() ==> Same(e)
    ensures l.Valid()
  {
    var nodes := l.Nodes();
    assert nodes == old(l.Nodes()) && nodes[0] == l.sentinel && Same(nodes[0]);
    RingKept(nodes);
    forall i | 0 <= i < |l.members| ensures MemberOk(l.members[i]) {
      assert old(MemberOk(l.members[i])) && l.members[i] in l.Nodes();
    }
  }

  /** An operation that keeps to the nodes of some lists and to free elements keeps the world. */
  twostate lemma WorldKept(lists: set<LinkedList>, new elems: set<Element>,
      new changed: set<LinkedList>, new touched: set<Element>)
    requires forall e :: e in elems ==> old(allocated(e))
    requires old(World(lists, elems)) && changed <= lists && touched <= elems
    requires forall m :: m in lists - changed ==> old(Elems(m.Nodes())) !! touched && m.members == old(m.members)
    requires forall e :: e in elems - touched ==> Same(e)
    requires forall l :: l in changed ==> l.Valid() && Elems(l.Nodes()) <= touched
    requires forall l, m :: l in changed && m in changed && l != m ==> Elems(l.Nodes()) !! Elems(m.Nodes())
    requires forall l :: l in changed ==> old(Elems(l.Nodes())) <= touched
    requires forall e :: e in touched ==> e.isSentinel || e.Loose() || Owned(changed, e)
    ensures World(lists, elems)
  {
    forall m | m in lists - changed ensures m.Valid() && Elems(m.Nodes()) == old(Elems(m.Nodes())) {
      assert m.Nodes() == old(m.Nodes());
      ValidKept(m);
    }
    forall e | e in elems && Free(Spelled(lists), e) ensures e.Loose() {
      forall l | l in lists ensures e !in l.members && (e !in touched ==> e !in old(l.members)) {
        assert e !in Spelled(lists)[l];
        assert e in old(l.members) ==> e in old(Elems(l.Nodes()));
      }
      if e !in touched {
        assert old(Free(Spelled(lists), e)) && old(e.Loose()) && Same(e);
      } else {
        assert !Owned(changed, e);
      }
    }
  }

  /** A free element is a node of no list. */
  lemma FreeIsNoNode(lists: set<LinkedList>, elems: set<Element>, e: Element)
    requires World(lists, elems) && e in elems && Free(Spelled(lists), e)
    ensures e.Loose() && forall m :: m in lists ==> e !in Elems(m.Nodes())
  {
    forall m | m in lists ensures e !in m.Nodes() {
      m.LooseIsNoNode(e);
    }
  }

  method StepOne(op: Op, ghost lists: set<LinkedList>, ghost elems: set<Element>)
    requires World(lists, elems) && Allowed(Spelled(lists), elems, op) && !op.MoveList?
    modifies op.list, Elems(op.list.Nodes()), Newcomer(op)
    ensures World(lists, elems)
    ensures op.list.members == Edited(old(op.list.members), op, [])
    ensures forall m :: m in lists && m != op.list ==> m.members == old(m.members)
  {
    ghost var list := op.list;
    assert Spelled(lists)[list] == list.members;
    ghost var touched := Elems(list.Nodes()) + Newcomer(op);
    forall e | e in Newcomer(op) {
      FreeIsNoNode(lists, elems, e);
    }
    EditedElements(list.members, op);
    Apply(op);
    WorldKept(lists, elems, {list}, touched);
  }

  method StepMove(list: LinkedList, from: LinkedList, ghost lists: set<LinkedList>, ghost elems: set<Element>)
    requires World(lists, elems) && list in lists && from in lists && list != from && list.members == []
    modifies list, from, Elems(list.Nodes()), Elems(from.Nodes())
    ensures World(lists, elems)
    ensures list.members == old(from.members) && from.members == []
    ensures forall m :: m in lists && m != list && m != from ==> m.members == old(m.members)
  {
    ghost var touched := Elems(list.Nodes()) + Elems(from.Nodes());
    assert list.sentinel in Elems(list.Nodes()) && from.sentinel in Elems(from.Nodes());
    list.MoveFrom(from);
    WorldKept(lists, elems, {list, from}, touched);
  }

  /** Every operation is the sequence edit it stands for, and keeps the world. */
  method Step(op: Op, ghost lists: set<LinkedList>, ghost elems: set<Element>)
    requires World(lists, elems) && Allowed(Spelled(lists), elems, op)
    modifies lists, elems
    ensures World(lists, elems)
    ensures Spelled(lists) == After(old(Spelled(lists)), elems, op)
  {
    hide Free, Edited;
    if op.MoveList? {
      StepMove(op.list, op.from, lists, elems);
    } else {
      StepOne(op, lists, elems);
    }
  }

  ghost predicate AllAllowed(s: State, elems: set<Element>, ops: seq<Op>) {
    ops == [] || (Allowed(s, elems, ops[0]) && AllAllowed(After(s, elems, ops[0]), elems, ops[1..]))
  }

  ghost function Final(s: State, elems: set<Element>, ops: seq<Op>): State
    requires AllAllowed(s, elems, ops)
  {
    if ops == [] then s else Final(After(s, elems, ops[0]), elems, ops[1..])
  }

  /** Over every run: the lists stay disjoint rings that spell what the edits say. */
  method Run(ops: seq<Op>, ghost lists: set<LinkedList>, ghost elems: set<Element>)
    requires World(lists, elems) && AllAllowed(Spelled(lists), elems, ops)
    modifies lists, elems
    ensures World(lists, elems)
    ensures Spelled(lists) == Final(old(Spelled(lists)), elems, ops)
  {
    hide World, Allowed, After, Spelled;
    for i := 0 to |ops|
      invariant World(lists, elems) && AllAllowed(Spelled(lists), elems, ops[i..])
      invariant Final(Spelled(lists), elems, ops[i..]) == old(Final(Spelled(lists), elems, ops))
    {
      assert ops[i..][0] == ops[i] && ops[i..][1..] == ops[i + 1..];
      Step(ops[i], lists, elems);
    }
  }
}
