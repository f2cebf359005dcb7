/** The children of a cJSON node as they are kept: a doubly linked list, relinked in place by adding,
    inserting, detaching and replacing. Each method states the sequence of children before and after
    it, and that the list stays well formed. */
module ItemList {
  import opened Json
  import opened KeySort

  /** An array or object node, as far as its list of children goes. */
  class Parent {
    var child: Node?
    ghost var nodes: seq<Node>

    /** The nodes in order, linked both ways, with NULL at both ends. */
    ghost predicate Valid()
      reads this, nodes
    {
      Linked(child, nodes) && (nodes != [] ==> nodes[0].prev == null)
    }

    constructor ()
      ensures Valid() && nodes == []
    {
      child, nodes := null, [];
    }

    /** get_array_item. */
    method GetItem(which: nat) returns (item: Node?)
      requires Linked(child, nodes)
      ensures item == if which < |nodes| then nodes[which] else null
    {
      item := child;
      var index: nat := which;
      ghost var i: nat := 0;
      while item != null && index > 0
        invariant i + index == which && i <= |nodes|
        invariant item == if i < |nodes| then nodes[i] else null
        decreases index
      {
        AfterNode(child, nodes, i);
        item := item.next;
        index, i := index - 1, i + 1;
      }
    }

    /** add_item_to_array, for an item that is in no list. */
    method AddItem(item: Node)
      requires Valid() && item !in nodes && item.next == null && item.prev == null
      modifies this, nodes, item
      ensures Valid() && nodes == old(nodes) + [item]
    {
      if child == null {
        child := item;
      } else {
        var last := LastItem();
        last.next := item;
        item.prev := last;
      }
      nodes := nodes + [item];
    }

    /** The walk of add_item_to_array to the end of the list. */
    method LastItem() returns (last: Node)
      requires Linked(child, nodes) && nodes != []
      ensures last == nodes[|nodes| - 1]
    {
      last := child;
      ghost var i: nat := 0;
      while last.next != null
        invariant i < |nodes| && last == nodes[i]
        decreases |nodes| - i
      {
        AfterNode(child, nodes, i);
        last := last.next;
        i := i + 1;
      }
      AfterNode(child, nodes, i);
    }

    /** cJSON_DetachItemViaPointer for the child at position i. */
    method Detach(item: Node, ghost i: nat)
      requires Valid() && i < |nodes| && item == nodes[i]
      modifies this, nodes
      ensures Valid() && nodes == old(nodes)[..i] + old(nodes)[i + 1..]
      ensures item.prev == null && item.next == null
    {
      Neighbours(child, nodes, i);
      if item.prev != null { item.prev.next := item.next; }
      if item.next != null { item.next.prev := item.prev; }
      if item == child { child := item.next; }
      item.prev := null;
      item.next := null;
      ghost var was := nodes;
      CutOut(was, i);
      nodes := was[..i] + was[i + 1..];
      forall j | 0 <= j < |nodes| - 1 ensures nodes[j].next == nodes[j + 1] && nodes[j + 1].prev == nodes[j] {
        if j + 1 < i {
          assert old(was[j].next) == was[j + 1] && old(was[j + 1].prev) == was[j];
        } else if j + 1 > i {
          assert old(was[j + 1].next) == was[j + 2] && old(was[j + 2].prev) == was[j + 1];
        }
      }
    }

    static lemma CutOut(was: seq<Node>, i: nat)
      requires i < |was| && NoRepeats(was)
      ensures var now := was[..i] + was[i + 1..];
              && NoRepeats(now) && was[i] !in now
              && forall j :: 0 <= j < |now| ==> now[j] == was[if j < i then j else j + 1]
    {
    }

    /** cJSON_InsertItemInArray: past the end the item is appended. */
    method InsertItem(which: nat, newItem: Node)
      requires Valid() && newItem !in nodes && newItem.next == null && newItem.prev == null
      modifies this, nodes, newItem
      ensures Valid()
      ensures nodes == if which < old(|nodes|) then old(nodes)[..which] + [newItem] + old(nodes)[which..]
                       else old(nodes) + [newItem]
    {
      var after := GetItem(which);
      if after == null {
        AddItem(newItem);
        return;
      }
      LinkBefore(after, newItem, which);
    }

    /** insert_item_in_array of the utilities: it refuses positions past the end. */
    method InsertAt(which: nat, newItem: Node) returns (done: bool)
      requires Valid() && newItem !in nodes && newItem.next == null && newItem.prev == null
      modifies this, nodes, newItem
      ensures Valid() && done == (which <= old(|nodes|))
      ensures nodes == if done then old(nodes)[..which] + [newItem] + old(nodes)[which..] else old(nodes)
    {
      var item := child;
      var left: nat := which;
      ghost var i: nat := 0;
      while item != null && left > 0
        invariant i + left == which && i <= |nodes|
        invariant item == if i < |nodes| then nodes[i] else null
        decreases left
        modifies {}
      {
        AfterNode(child, nodes, i);
        item := item.next;
        left, i := left - 1, i + 1;
      }
      if left > 0 { return false; }
      if item == null {
        AddItem(newItem);
        assert old(nodes)[..which] == old(nodes) && old(nodes)[which..] == [];
        return true;
      }
      LinkBefore(item, newItem, i);
      return true;
    }

    static lemma Spliced(was: seq<Node>, i: nat, item: Node)
      requires i <= |was| && item !in was && NoRepeats(was)
      ensures var now := was[..i] + [item] + was[i..];
              && NoRepeats(now)
              && forall j :: 0 <= j < |now| ==> now[j] == if j < i then was[j] else if j == i then item else was[j - 1]
      ensures forall j :: 0 <= j < |was| ==> was[j] != item
    {
    }

    /** Both insertions: a new node in front of one that is there. */
    method LinkBefore(after: Node, newItem: Node, ghost i: nat)
      requires Valid() && i < |nodes| && after == nodes[i]
      requires newItem !in nodes
      modifies this, nodes, newItem
      ensures Valid() && nodes == old(nodes)[..i] + [newItem] + old(nodes)[i..]
    {
      Neighbours(child, nodes, i);
      newItem.next := after;
      newItem.prev := after.prev;
      after.prev := newItem;
      if after == child {
        child := newItem;
      } else {
        newItem.prev.next := newItem;
      }
      ghost var was := nodes;
      nodes := was[..i] + [newItem] + was[i..];
      Spliced(was, i, newItem);
      forall j | 0 <= j < |nodes| - 1 ensures nodes[j].next == nodes[j + 1] && nodes[j + 1].prev == nodes[j] {
        assert j + 1 < i ==> old(was[j].next) == was[j + 1];
        assert i < j ==> old(was[j - 1].next) == was[j];
      }
    }

    /** cJSON_ReplaceItemViaPointer with a node that is in no list. */
    method Replace(item: Node, replacement: Node, ghost i: nat)
      requires Valid() && i < |nodes| && item == nodes[i] && replacement !in nodes
      modifies this, nodes, replacement
      ensures Valid() && nodes == old(nodes)[i := replacement]
      ensures item.prev == null && item.next == null
    {
      Neighbours(child, nodes, i);
      replacement.next := item.next;
      replacement.prev := item.prev;
      if replacement.next != null { replacement.next.prev := replacement; }
      if replacement.prev != null { replacement.prev.next := replacement; }
      if child == item { child := replacement; }
      item.next := null;
      item.prev := null;
      ghost var was := nodes;
      Exchanged(was, i, replacement);
      nodes := was[i := replacement];
      forall j | 0 <= j < |nodes| - 1 ensures nodes[j].next == nodes[j + 1] && nodes[j + 1].prev == nodes[j] {
        assert old(was[j].next) == was[j + 1] && old(was[j + 1].prev) == was[j];
      }
    }

    static lemma Exchanged(was: seq<Node>, i: nat, item: Node)
      requires i < |was| && item !in was && NoRepeats(was)
      ensures NoRepeats(was[i := item]) && was[i] !in was[i := item]
      ensures forall j :: 0 <= j < |was| ==> was[j] != item
    {
    }
  }

  lemma AfterNode(list: Node?, nodes: seq<Node>, i: nat)
    requires Linked(list, nodes) && i < |nodes|
    ensures nodes[i].next == if i + 1 < |nodes| then nodes[i + 1] else null
  {
  }

  /** The links of one node of a list. */
  lemma Neighbours(list: Node?, nodes: seq<Node>, i: nat)
    requires Linked(list, nodes) && i < |nodes|
    ensures nodes[i].next == if i + 1 < |nodes| then nodes[i + 1] else null
    ensures i > 0 ==> nodes[i].prev == nodes[i - 1]
    ensures list == nodes[0] && (nodes[i] == list <==> i == 0)
  {
    assert i > 0 ==> nodes[i - 1 + 1].prev == nodes[i - 1];
  }

  // ---------------------------------------------------------------- detaching after sorting

  /** Detaching the first child of a list whose first `prev` may be stale, as sort_list leaves it. What
      remains is a list exactly when that `prev` was NULL; a stale one closes a cycle. */
  method DetachFirst(parent: Parent, item: Node)
    requires Linked(parent.child, parent.nodes) && |parent.nodes| > 1 && item == parent.nodes[0]
    requires item.prev == null || item.prev in parent.nodes[1..]
    modifies parent, parent.nodes
    ensures parent.nodes == old(parent.nodes)[1..]
    ensures Linked(parent.child, parent.nodes) <==> old(item.prev) == null
  {
    Neighbours(parent.child, parent.nodes, 0);
    ghost var nodes := parent.nodes;
    ghost var stale := item.prev;
    ghost var k := StalePlace(nodes, stale);
    if item.prev != null { item.prev.next := item.next; }
    if item.next != null { item.next.prev := item.prev; }
    if item == parent.child { parent.child := item.next; }
    item.prev := null;
    item.next := null;
    parent.nodes := nodes[1..];
    if stale != null {
      Cyclic(parent.child, nodes[1..], k - 1);
    }
  }

  lemma StalePlace(nodes: seq<Node>, stale: Node?) returns (k: nat)
    requires nodes != [] && (stale == null || stale in nodes[1..])
    ensures k < |nodes| && (stale != null ==> k > 0 && nodes[k] == stale)
  {
    if stale == null { return 0; }
    var i :| 0 <= i < |nodes[1..]| && nodes[1..][i] == stale;
    return i + 1;
  }

  lemma Cyclic(list: Node?, nodes: seq<Node>, k: nat)
    requires k < |nodes| && nodes[k].next == nodes[0]
    ensures !Linked(list, nodes)
  {
    if Linked(list, nodes) {
      FirstIsOnlyOnce(nodes, k + 1);
      AfterNode(list, nodes, k);
    }
  }

  lemma FirstIsOnlyOnce(nodes: seq<Node>, k: nat)
    requires NoRepeats(nodes)
    ensures 0 < k < |nodes| ==> nodes[0] != nodes[k]
  {
  }

  /** The first member's name is below every other one. */
  ghost predicate FirstIsLowest(nodes: seq<Node>) {
    forall i :: 0 < i < |nodes| ==> Before(nodes[0], nodes[i], NodeKey())
  }

  /** sort_object and then detaching the first member: the list survives exactly when the name of the member
      that was first is below every other one. This is why patches are applied to a copy taken before
      sorting. */
  method SortThenDetachFirst(parent: Parent)
    requires parent.Valid() && |parent.nodes| > 1
    modifies parent, parent.nodes
    ensures parent.nodes == Sort(old(parent.nodes), NodeKey())[1..]
    ensures Linked(parent.child, parent.nodes) <==> old(FirstIsLowest(parent.nodes))
  {
    hide Sort, Before;
    FirstStays(parent.nodes, NodeKey());
    ghost var nodes := parent.nodes;
    var first := parent.child;
    var result := SortObject(first, nodes);
    ghost var sorted := Sort(nodes, NodeKey());
    SortPermutes(nodes, NodeKey());
    SameNodes(sorted, nodes);
    parent.child := result;
    parent.nodes := sorted;
    if result.prev != null {
      assert result.prev in sorted;
      assert sorted == [sorted[0]] + sorted[1..];
    }
    assert forall i :: 0 <= i < |sorted| ==> sorted[i] in nodes;
    DetachFirst(parent, result);
  }

  lemma SameNodes(a: seq<Node>, b: seq<Node>)
    requires multiset(a) == multiset(b)
    ensures |a| == |b| && forall n :: n in a <==> n in b
  {
    assert |multiset(a)| == |a| && |multiset(b)| == |b|;
    forall n ensures n in a <==> n in b {
      SameElements(a, b, n);
    }
  }

  /** The smallest list that breaks: the members b and a, in this order. */
  method SortedPairBreaks() returns (parent: Parent)
    ensures |parent.nodes| == 1 && !Linked(parent.child, parent.nodes)
  {
    hide Sort, Linked;
    var b := new Node("b");
    var a := new Node("a");
    parent := new Parent();
    parent.AddItem(b);
    parent.AddItem(a);
    assert parent.nodes == [b, a];
    NotBefore(b, a);
    assert !FirstIsLowest(parent.nodes) by { assert parent.nodes[1] == a; }
    SortThenDetachFirst(parent);
  }

  lemma NotBefore(b: Node, a: Node)
    requires b.key == "b" && a.key == "a"
    ensures !Before(b, a, NodeKey())
  {
    assert Fold("b") == "b" && Fold("a") == "a";
  }
}
