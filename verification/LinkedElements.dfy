/**
 * The elements of mfbt/LinkedList.h: nodes of cyclic doubly linked rings.
 *
 * listRefs counts the references that lists hold on an element: enterList takes one and exitList
 * gives one back.
 */
module LinkedElements {
  import opened Sequences

  /** The index after i, going round. */
  function Succ(i: nat, n: nat): nat {
    if i + 1 == n then 0 else i + 1
  }

  function Pred(i: nat, n: nat): nat
    requires i < n
  {
    if i == 0 then n - 1 else i - 1
  }

  /** r[i] and the element after it point at each other. */
  ghost predicate LinkAt(r: seq<Element>, i: nat)
    requires i < |r|
    reads Elems(r)
  {
    assert r[i] in r && r[Succ(i, |r|)] in r;
    r[i].next == r[Succ(i, |r|)] && r[Succ(i, |r|)].prev == r[i]
  }

  /** The pointers of the elements of r form one cycle that spells r. */
  ghost predicate Ring(r: seq<Element>)
    reads Elems(r)
  {
    NoDuplicates(r) && forall i :: 0 <= i < |r| ==> LinkAt(r, i)
  }

  lemma Neighbours(r: seq<Element>, i: nat)
    requires Ring(r) && i < |r|
    ensures r[i].next == r[Succ(i, |r|)] && r[i].prev == r[Pred(i, |r|)]
    ensures {r[i], r[i].next, r[i].prev} <= Elems(r)
  {
    assert LinkAt(r, i) && LinkAt(r, Pred(i, |r|));
  }

  /** In a ring of several elements, each is in a list. */
  lemma InRingIsInList(r: seq<Element>, i: nat)
    requires Ring(r) && i < |r| && 1 < |r|
    ensures r[i].IsInList()
  {
    assert LinkAt(r, i);
  }

  twostate predicate Same(e: Element)
    reads e
  {
    e.next == old(e.next) && e.prev == old(e.prev) && e.listRefs == old(e.listRefs)
  }

  twostate lemma RingKept(r: seq<Element>)
    requires old(Ring(r)) && forall e :: e in r ==> Same(e)
    ensures Ring(r)
  {
    forall k | 0 <= k < |r| ensures LinkAt(r, k) {
      assert old(LinkAt(r, k)) && r[k] in r && r[Succ(k, |r|)] in r;
    }
  }

  function Inserted(r: seq<Element>, i: nat, elem: Element): seq<Element>
    requires i < |r|
  {
    r[..i + 1] + [elem] + r[i + 1..]
  }

  lemma DistinctInserted(r: seq<Element>, i: nat, elem: Element)
    requires NoDuplicates(r) && i < |r| && elem !in r
    ensures NoDuplicates(Inserted(r, i, elem))
  {
    var s := Inserted(r, i, elem);
    assert forall k :: 0 <= k < |s| ==> s[k] == if k <= i then r[k] else if k == i + 1 then elem else r[k - 1];
  }

  lemma DistinctRemoved(r: seq<Element>, i: nat)
    requires NoDuplicates(r) && i < |r|
    ensures NoDuplicates(Removed(r, i))
  {
    var t := Removed(r, i);
    assert forall k :: 0 <= k < |t| ==> t[k] == r[if k < i then k else k + 1];
  }

  /** Splicing in an element behind r[i], pointer by pointer. */
  twostate lemma InsertKeepsRing(r: seq<Element>, new i: nat, new elem: Element)
    requires old(Ring(r)) && i < |r| && elem !in r
    requires r[i].next == elem && elem.prev == r[i] && elem.next == r[Succ(i, |r|)] && r[Succ(i, |r|)].prev == elem
    requires forall k :: 0 <= k < |r| && k != i ==> r[k].next == old(r[k].next)
    requires forall k :: 0 <= k < |r| && k != Succ(i, |r|) ==> r[k].prev == old(r[k].prev)
    ensures Ring(Inserted(r, i, elem))
  {
    var s, n := Inserted(r, i, elem), |r|;
    DistinctInserted(r, i, elem);
    forall k | 0 <= k < |s| ensures LinkAt(s, k) {
      if k < i {
        assert old(LinkAt(r, k)) && s[k] == r[k] && s[k + 1] == r[k + 1];
      } else if k > i + 1 {
        assert old(LinkAt(r, k - 1)) && s[k] == r[k - 1];
        assert s[Succ(k, n + 1)] == r[Succ(k - 1, n)];
      } else {
        assert s[i] == r[i] && s[i + 1] == elem;
      }
    }
  }

  /** Pointing the neighbours of r[i] at each other takes r[i] out. */
  twostate lemma RemoveKeepsRing(r: seq<Element>, new i: nat)
    requires old(Ring(r)) && i < |r| && 2 <= |r|
    requires var p, s := Pred(i, |r|), Succ(i, |r|);
      && r[p].next == r[s] && r[s].prev == r[p]
      && (forall k :: 0 <= k < |r| && k != i && k != p ==> r[k].next == old(r[k].next))
      && (forall k :: 0 <= k < |r| && k != i && k != s ==> r[k].prev == old(r[k].prev))
    ensures Ring(Removed(r, i))
  {
    var t, n := Removed(r, i), |r|;
    DistinctRemoved(r, i);
    forall k | 0 <= k < |t| ensures LinkAt(t, k) {
      var k0 := if k < i then k else k + 1;
      assert old(LinkAt(r, k0)) && t[k] == r[k0];
      assert t[Succ(k, n - 1)] == if k0 == Pred(i, n) then r[Succ(i, n)] else r[Succ(k0, n)];
    }
  }

  /** Pointing e at the neighbours of r[i] and back puts e in the place of r[i]. */
  twostate lemma ReplaceKeepsRing(r: seq<Element>, new i: nat, new e: Element)
    requires old(Ring(r)) && i < |r| && 2 <= |r| && e !in r
    requires var p, s := Pred(i, |r|), Succ(i, |r|);
      && e.next == r[s] && e.prev == r[p] && r[p].next == e && r[s].prev == e
      && (forall k :: 0 <= k < |r| && k != i && k != p ==> r[k].next == old(r[k].next))
      && (forall k :: 0 <= k < |r| && k != i && k != s ==> r[k].prev == old(r[k].prev))
    ensures Ring(r[i := e])
  {
    var t, n := r[i := e], |r|;
    forall k | 0 <= k < n ensures LinkAt(t, k) {
      assert old(LinkAt(r, k));
      assert k != i ==> Pred(Succ(k, n), n) == k;
    }
  }

  class Element {
    var next: Element
    var prev: Element
    const isSentinel: bool
    var listRefs: int

    constructor (sentinel: bool)
      ensures isSentinel == sentinel && Loose()
    {
      isSentinel, next, prev, listRefs := sentinel, this, this, 0;
    }

    /** In no list. */
    ghost predicate Loose()
      reads this
    {
      next == this && prev == this && listRefs == 0
    }

    predicate IsInList()
      reads this
    {
      next != this
    }

    function AsT(): Element? {
      if isSentinel then null else this
    }

    function GetNext(): Element?
      reads this
    {
      next.AsT()
    }

    function GetPrevious(): Element?
      reads this
    {
      prev.AsT()
    }

    method EnterList()
      modifies this`listRefs
      ensures listRefs == old(listRefs) + 1
    {
      listRefs := listRefs + 1;
    }

    method ExitList()
      modifies this`listRefs
      ensures listRefs == old(listRefs) - 1
    {
      listRefs := listRefs - 1;
    }

    /** Links elem in behind this, the i-th element of the ring r. */
    method SetNextUnsafe(elem: Element, ghost r: seq<Element>, ghost i: nat)
      requires Ring(r) && i < |r| && r[i] == this && elem !in r && elem.Loose()
      modifies this`next, next`prev, elem
      ensures Ring(Inserted(r, i, elem)) && elem.listRefs == 1
    {
      assert LinkAt(r, i);
      elem.next := next;
      elem.prev := this;
      next.prev := elem;
      next := elem;
      elem.EnterList();
      InsertKeepsRing(r, i, elem);
    }

    /** Links elem in before this, the i-th element of the ring r. */
    method SetPreviousUnsafe(elem: Element, ghost r: seq<Element>, ghost i: nat)
      requires Ring(r) && i < |r| && r[i] == this && elem !in r && elem.Loose()
      modifies this`prev, prev`next, elem
      ensures Ring(Inserted(r, Pred(i, |r|), elem)) && elem.listRefs == 1
    {
      assert LinkAt(r, Pred(i, |r|));
      elem.next := this;
      elem.prev := prev;
      prev.next := elem;
      prev := elem;
      elem.EnterList();
      InsertKeepsRing(r, Pred(i, |r|), elem);
    }

    /** Takes this, the i-th element of the ring r, out of it. */
    method Remove(ghost r: seq<Element>, ghost i: nat)
      requires Ring(r) && i < |r| && r[i] == this && IsInList()
      modifies this, prev`next, next`prev
      ensures Ring(Removed(r, i)) && next == this && prev == this
      ensures listRefs == old(listRefs) - 1
    {
      assert LinkAt(r, i) && LinkAt(r, Pred(i, |r|));
      prev.next := next;
      next.prev := prev;
      next := this;
      prev := this;
      ExitList();
      RemoveKeepsRing(r, i);
    }

    /**
     * Puts this in the place of other, the i-th element of the ring r; leaves this alone when other
     * is in no list.
     */
    method AdjustLinkForMove(other: Element, ghost r: seq<Element>, ghost i: nat)
      requires Ring(r) && i < |r| && r[i] == other && this !in r && Loose()
      modifies this, other, other.prev`next, other.next`prev
      ensures |r| == 1 ==>
        Loose() && other.next == other && other.prev == other && other.listRefs == old(other.listRefs)
      ensures 1 < |r| ==> Ring(r[i := this]) && other.next == other && other.prev == other
      ensures 1 < |r| && !isSentinel ==> listRefs == 1 && other.listRefs == old(other.listRefs) - 1
      ensures 1 < |r| && isSentinel ==> listRefs == 0 && other.listRefs == old(other.listRefs)
    {
      assert LinkAt(r, i) && LinkAt(r, Pred(i, |r|));
      if !other.IsInList() {
        next := this;
        prev := this;
        return;
      }
      if !isSentinel {
        EnterList();
      }
      assert other.next.prev == other && other.prev.next == other;
      next := other.next;
      prev := other.prev;
      next.prev := this;
      prev.next := this;
      other.next := other;
      other.prev := other;
      if !isSentinel {
        other.ExitList();
      }
      ReplaceKeepsRing(r, i, this);
    }
  }
}
