/** mfbt/LinkedList.h: lists as rings through a sentinel. */
module LinkedLists {
  import opened LinkedElements
  import opened Sequences

  class LinkedList {
    const sentinel: Element
    ghost var members: seq<Element>

    ghost function Nodes(): seq<Element>
      reads this
    {
      [sentinel] + members
    }

    /** The ring spells the members, and the list holds one reference on each. */
    ghost predicate Valid()
      reads this, Elems(Nodes())
    {
      && Ring(Nodes()) && sentinel.isSentinel && sentinel.listRefs == 0
      && forall i :: 0 <= i < |members| ==> MemberOk(members[i])
    }

    constructor ()
      ensures Valid() && members == [] && fresh(sentinel)
    {
      sentinel := new Element(true);
      members := [];
      new;
      assert LinkAt([sentinel], 0);
    }

    /** An element in no list is not a node of this one. */
    lemma LooseIsNoNode(elem: Element)
      requires Valid() && !elem.isSentinel && elem.Loose()
      ensures elem !in Nodes()
    {
    }

    /** Records what the ring spells now. */
    ghost method Spell(now: seq<Element>)
      requires Ring([sentinel] + now) && sentinel.isSentinel && sentinel.listRefs == 0
      requires forall i :: 0 <= i < |now| ==> MemberOk(now[i])
      modifies this`members
      ensures members == now && Valid()
    {
      hide Ring;
      ghost var nodes := [sentinel] + now;
      members := now;
      RingKept(nodes);
    }

    ghost method SpellBoth(now: seq<Element>, other: LinkedList)
      requires other != this && other.sentinel.isSentinel && other.sentinel.listRefs == 0
      requires Ring([other.sentinel] + [])
      requires Ring([sentinel] + now) && sentinel.isSentinel && sentinel.listRefs == 0
      requires forall i :: 0 <= i < |now| ==> MemberOk(now[i])
      modifies this`members, other`members
      ensures members == now && Valid() && other.members == [] && other.Valid()
    {
      hide Ring;
      members := now;
      other.members := [];
      RingKept([sentinel] + now);
      RingKept([other.sentinel] + []);
    }

    method InsertFront(elem: Element)
      requires Valid() && !elem.isSentinel && elem.Loose()
      modifies this, Elems(Nodes()), elem
      ensures Valid() && members == [elem] + old(members)
    {
      hide Ring;
      LooseIsNoNode(elem);
      ghost var nodes := Nodes();
      Neighbours(nodes, 0);
      sentinel.SetNextUnsafe(elem, nodes, 0);
      ghost var now := [elem] + members;
      assert [sentinel] + now == Inserted(nodes, 0, elem);
      Spell(now);
    }

    method InsertBack(elem: Element)
      requires Valid() && !elem.isSentinel && elem.Loose()
      modifies this, Elems(Nodes()), elem
      ensures Valid() && members == old(members) + [elem]
    {
      hide Ring;
      LooseIsNoNode(elem);
      ghost var nodes := Nodes();
      Neighbours(nodes, 0);
      sentinel.SetPreviousUnsafe(elem, nodes, 0);
      ghost var now := members + [elem];
      assert [sentinel] + now == Inserted(nodes, Pred(0, |nodes|), elem);
      Spell(now);
    }

    /** setNext on the i-th member. */
    method InsertAfter(at: Element, elem: Element, ghost i: nat)
      requires Valid() && i < |members| && members[i] == at && !elem.isSentinel && elem.Loose()
      modifies this, Elems(Nodes()), elem
      ensures Valid() && members == old(members)[..i + 1] + [elem] + old(members)[i + 1..]
    {
      hide Ring;
      LooseIsNoNode(elem);
      ghost var nodes := Nodes();
      Neighbours(nodes, i + 1);
      InRingIsInList(nodes, i + 1);
      at.SetNextUnsafe(elem, nodes, i + 1);
      ghost var now := members[..i + 1] + [elem] + members[i + 1..];
      InsertedInside(sentinel, members, i + 1, elem);
      Spell(now);
    }

    /** setPrevious on the i-th member. */
    method InsertBefore(at: Element, elem: Element, ghost i: nat)
      requires Valid() && i < |members| && members[i] == at && !elem.isSentinel && elem.Loose()
      modifies this, Elems(Nodes()), elem
      ensures Valid() && members == old(members)[..i] + [elem] + old(members)[i..]
    {
      hide Ring;
      LooseIsNoNode(elem);
      ghost var nodes := Nodes();
      Neighbours(nodes, i + 1);
      InRingIsInList(nodes, i + 1);
      at.SetPreviousUnsafe(elem, nodes, i + 1);
      ghost var now := members[..i] + [elem] + members[i..];
      InsertedInside(sentinel, members, i, elem);
      Spell(now);
    }

    /** remove() on the i-th member; which list that is only the proof needs to know. */
    method RemoveMember(elem: Element, ghost i: nat)
      requires Valid() && i < |members| && members[i] == elem
      modifies this, Elems(Nodes())
      ensures Valid() && members == old(members)[..i] + old(members)[i + 1..] && elem.Loose()
    {
      hide Ring;
      ghost var nodes := Nodes();
      Neighbours(nodes, i + 1);
      InRingIsInList(nodes, i + 1);
      assert MemberOk(members[i]);
      RingIsDistinct(nodes);
      elem.Remove(nodes, i + 1);
      ghost var now := members[..i] + members[i + 1..];
      RemovedInside(sentinel, members, i);
      forall k | 0 <= k < |now| ensures MemberOk(now[k]) {
        var k0 := StillThere(sentinel, members, i, k);
        assert old(MemberOk(members[k0]));
      }
      Spell(now);
    }

    method PopFirst() returns (r: Element?)
      requires Valid()
      modifies this, Elems(Nodes())
      ensures Valid()
      ensures old(members) == [] ==> r == null && members == []
      ensures old(members) != [] ==> r == old(members)[0] && members == old(members)[1..] && r.Loose()
    {
      Neighbours(Nodes(), 0);
      r := sentinel.GetNext();
      if r != null {
        RemoveMember(r, 0);
      }
    }

    method PopLast() returns (r: Element?)
      requires Valid()
      modifies this, Elems(Nodes())
      ensures Valid()
      ensures old(members) == [] ==> r == null && members == []
      ensures var n := |old(members)|;
        0 < n ==> r == old(members)[n - 1] && members == old(members)[..n - 1] && r.Loose()
    {
      Neighbours(Nodes(), 0);
      r := sentinel.GetPrevious();
      if r != null {
        RemoveMember(r, |members| - 1);
      }
    }

    method RemoveAndGetNext(elem: Element, ghost i: nat) returns (r: Element?)
      requires Valid() && i < |members| && members[i] == elem
      modifies this, Elems(Nodes())
      ensures Valid() && members == old(members)[..i] + old(members)[i + 1..] && elem.Loose()
      ensures r == if i + 1 < |old(members)| then old(members)[i + 1] else null
    {
      Neighbours(Nodes(), i + 1);
      r := elem.GetNext();
      assert i + 1 < |members| ==> MemberOk(members[i + 1]);
      RemoveMember(elem, i);
    }

    /** Removes the members one by one from the front, so each knows that it is in no list. */
    method Clear()
      requires Valid()
      modifies this, Elems(Nodes())
      ensures Valid() && members == []
      ensures forall i :: 0 <= i < |old(members)| ==> old(members)[i].Loose()
    {
      ghost var popped := 0;
      ghost var was := members;
      var r: Element? := sentinel;
      while r != null
        invariant Valid() && 0 <= popped <= |was| && members == was[popped..]
        invariant r == null ==> members == []
        invariant forall i :: 0 <= i < popped ==> was[i].Loose()
        decreases |members|, r != null
      {
        r := PopFirst();
        if r != null {
          popped := popped + 1;
        }
      }
    }

    method IsEmpty() returns (r: bool)
      requires Valid()
      ensures r <==> members == []
    {
      Neighbours(Nodes(), 0);
      r := !sentinel.IsInList();
    }

    method Length() returns (length: nat)
      requires Valid()
      ensures length == |members|
    {
      Neighbours(Nodes(), 0);
      length := 0;
      var element := sentinel.GetNext();
      while element != null
        invariant length <= |members|
        invariant element == if length < |members| then members[length] else null
        decreases |members| - length
      {
        Neighbours(Nodes(), length + 1);
        length := length + 1;
        assert length < |members| ==> MemberOk(members[length]);
        element := element.GetNext();
      }
    }

    method Contains(elem: Element) returns (r: bool)
      requires Valid()
      ensures r <==> elem in members
    {
      Neighbours(Nodes(), 0);
      ghost var k := 0;
      var element := sentinel.GetNext();
      while element != null
        invariant 0 <= k <= |members|
        invariant element == if k < |members| then members[k] else null
        invariant elem !in members[..k]
        decreases |members| - k
      {
        if element == elem {
          return true;
        }
        Neighbours(Nodes(), k + 1);
        k := k + 1;
        assert k < |members| ==> MemberOk(members[k]);
        element := element.GetNext();
      }
      assert members[..k] == members;
      return false;
    }

    /** Move assignment and move construction of the i-th member: `to` takes its place. */
    method MoveMember(to: Element, from: Element, ghost i: nat)
      requires Valid() && i < |members| && members[i] == from && !to.isSentinel && to.Loose()
      modifies this, Elems(Nodes()), to
      ensures Valid() && members == old(members)[i := to] && from.Loose()
    {
      LooseIsNoNode(to);
      ghost var nodes := Nodes();
      Neighbours(nodes, i + 1);
      assert nodes[i + 1] == from && MemberOk(members[i]);
      to.AdjustLinkForMove(from, nodes, i + 1);
      ghost var now := members[i := to];
      assert [sentinel] + now == nodes[i + 1 := to];
      forall k | 0 <= k < |now| ensures MemberOk(now[k]) {
        assert old(MemberOk(members[k])) && nodes[k + 1] == members[k] && nodes[i + 1] == from;
      }
      Spell(now);
    }

    /** Move assignment of a whole list to an empty one. */
    method MoveFrom(other: LinkedList)
      requires Valid() && members == [] && other.Valid() && other != this && other.sentinel != sentinel
      modifies this, other, sentinel, Elems(other.Nodes())
      ensures Valid() && members == old(other.members)
      ensures other.Valid() && other.members == []
    {
      ghost var nodes := other.Nodes();
      ghost var now := other.members;
      Neighbours(nodes, 0);
      Neighbours(Nodes(), 0);
      assert sentinel !in nodes by {
        forall k | 0 <= k < |now| ensures now[k] != sentinel {
          assert MemberOk(now[k]);
        }
      }
      sentinel.AdjustLinkForMove(other.sentinel, nodes, 0);
      assert [sentinel] + now == nodes[0 := sentinel];
      assert LinkAt([sentinel], 0) || 1 < |nodes|;
      assert LinkAt([other.sentinel], 0);
      SpellBoth(now, other);
    }
  }

  lemma InsertedInside(sentinel: Element, members: seq<Element>, i: nat, elem: Element)
    requires i <= |members|
    ensures [sentinel] + (members[..i] + [elem] + members[i..]) == Inserted([sentinel] + members, i, elem)
  {
  }

  lemma RemovedInside(sentinel: Element, members: seq<Element>, i: nat)
    requires i < |members|
    ensures [sentinel] + (members[..i] + members[i + 1..]) == Removed([sentinel] + members, i + 1)
  {
  }

  lemma RingIsDistinct(r: seq<Element>)
    requires Ring(r)
    ensures NoDuplicates(r)
  {
  }

  lemma StillThere(sentinel: Element, members: seq<Element>, i: nat, k: nat) returns (k0: nat)
    requires NoDuplicates([sentinel] + members) && i < |members| && k < |members| - 1
    ensures k0 < |members| && members[k0] == (members[..i] + members[i + 1..])[k] != members[i]
  {
    k0 := if k < i then k else k + 1;
    var nodes := [sentinel] + members;
    assert nodes[k0 + 1] == members[k0] && nodes[i + 1] == members[i];
  }

  /** What a list says of each of its members besides their pointers. */
  ghost predicate MemberOk(e: Element)
    reads e
  {
    !e.isSentinel && e.listRefs == 1
  }
}
