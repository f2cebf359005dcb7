/** sort_list: merge sort of a doubly linked member list by folded key. The list is split by two cursors
    and merged by relinking its nodes; the functions say in which order. */
module KeySort {
  import opened Json

  // ---------------------------------------------------------------- the sorted order

  /** The order the list ends up in. `key` gives the name of an element. */
  function Sort<T>(s: seq<T>, key: T -> string): (r: seq<T>)
    ensures |r| == |s|
    decreases |s|
  {
    if |s| <= 1 || Ascending(s, key) then s
    else
      var mid := (|s| + 1) / 2;
      Merge(Sort(s[..mid], key), Sort(s[mid..], key), key)
  }

  predicate Ascending<T>(s: seq<T>, key: T -> string) {
    forall i :: 0 <= i < |s| - 1 ==> CompareKeys(key(s[i]), key(s[i + 1])) < 0
  }

  /** On equal keys the second list goes first. */
  function Merge<T>(a: seq<T>, b: seq<T>, key: T -> string): (r: seq<T>)
    ensures |r| == |a| + |b|
    decreases |a| + |b|
  {
    if a == [] then b
    else if b == [] then a
    else if CompareKeys(key(a[0]), key(b[0])) < 0 then [a[0]] + Merge(a[1..], b, key)
    else [b[0]] + Merge(a, b[1..], key)
  }

  ghost predicate Before<T>(x: T, y: T, key: T -> string) {
    CompareKeys(key(x), key(y)) < 0
  }

  /** Every earlier element is strictly before every later one. */
  ghost predicate StrictlySorted<T>(s: seq<T>, key: T -> string) {
    forall i, j :: 0 <= i < j < |s| ==> Before(s[i], s[j], key)
  }

  ghost predicate DistinctBy<T>(s: seq<T>, key: T -> string) {
    forall i, j :: 0 <= i < j < |s| ==> Fold(key(s[i])) != Fold(key(s[j]))
  }

  lemma BeforeTransitive<T>(x: T, y: T, z: T, key: T -> string)
    requires Before(x, y, key) && Before(y, z, key)
    ensures Before(x, z, key)
  {
    CompareIsTransitive(Fold(key(x)), Fold(key(y)), Fold(key(z)));
  }

  lemma BeforeTotal<T>(x: T, y: T, key: T -> string)
    ensures Fold(key(x)) != Fold(key(y)) ==> Before(x, y, key) || Before(y, x, key)
    ensures Before(x, y, key) ==> !Before(y, x, key) && Fold(key(x)) != Fold(key(y))
  {
    CompareIsEquality(Fold(key(x)), Fold(key(y)));
    CompareFlips(Fold(key(x)), Fold(key(y)));
    CompareFlips(Fold(key(y)), Fold(key(x)));
  }

  lemma {:induction false} AscendingIsSorted<T>(s: seq<T>, key: T -> string)
    requires Ascending(s, key)
    ensures StrictlySorted(s, key)
  {
    if |s| > 1 {
      forall i | 0 <= i < |s| - 2 ensures CompareKeys(key(s[1..][i]), key(s[1..][i + 1])) < 0 {
        assert CompareKeys(key(s[i + 1]), key(s[i + 1 + 1])) < 0;
      }
      AscendingIsSorted(s[1..], key);
      forall i, j | 0 <= i < j < |s| ensures Before(s[i], s[j], key) {
        if i > 0 {
          assert Before(s[1..][i - 1], s[1..][j - 1], key);
        } else {
          assert Before(s[0], s[1], key);
          if j > 1 {
            assert Before(s[1..][0], s[1..][j - 1], key);
            BeforeTransitive(s[0], s[1], s[j], key);
          }
        }
      }
    }
  }

  /** Merging moves nothing in or out. */
  lemma {:induction false} MergePermutes<T>(a: seq<T>, b: seq<T>, key: T -> string)
    ensures multiset(Merge(a, b, key)) == multiset(a) + multiset(b)
    decreases |a| + |b|
  {
    hide CompareKeys;
    if a != [] && b != [] {
      if CompareKeys(key(a[0]), key(b[0])) < 0 {
        MergePermutes(a[1..], b, key);
        HeadAndTail(a);
        HeadAndTail(Merge(a, b, key));
      } else {
        MergePermutes(a, b[1..], key);
        HeadAndTail(b);
        HeadAndTail(Merge(a, b, key));
      }
    }
  }

  lemma HeadAndTail<T>(s: seq<T>)
    requires s != []
    ensures multiset(s) == multiset{s[0]} + multiset(s[1..])
  {
    assert s == [s[0]] + s[1..];
  }

  lemma {:induction false} SortPermutes<T>(s: seq<T>, key: T -> string)
    ensures multiset(Sort(s, key)) == multiset(s)
    decreases |s|
  {
    hide Ascending, Merge, CompareKeys;
    if |s| > 1 && !Ascending(s, key) {
      var mid := (|s| + 1) / 2;
      var a, b := Sort(s[..mid], key), Sort(s[mid..], key);
      SortPermutes(s[..mid], key);
      SortPermutes(s[mid..], key);
      MergePermutes(a, b, key);
      assert Sort(s, key) == Merge(a, b, key);
      assert s == s[..mid] + s[mid..];
      assert multiset(s) == multiset(s[..mid]) + multiset(s[mid..]);
    }
  }

  lemma SameElements<T>(s: seq<T>, t: seq<T>, x: T)
    requires multiset(s) == multiset(t)
    ensures x in s <==> x in t
  {
    assert x in multiset(s) <==> x in multiset(t);
  }

  lemma {:induction false} MergeSorts<T>(a: seq<T>, b: seq<T>, key: T -> string)
    requires StrictlySorted(a, key) && StrictlySorted(b, key)
    requires forall x, y :: x in a && y in b ==> Fold(key(x)) != Fold(key(y))
    ensures StrictlySorted(Merge(a, b, key), key)
    decreases |a| + |b|
  {
    hide CompareKeys, Fold;
    if a != [] && b != [] {
      BeforeTotal(a[0], b[0], key);
      if CompareKeys(key(a[0]), key(b[0])) < 0 {
        MergeSorts(a[1..], b, key);
        ConsSorts(a[0], a[1..], b, key);
      } else {
        MergeSorts(a, b[1..], key);
        ConsSorts(b[0], a, b[1..], key);
      }
    }
  }

  /** An element before the heads of both lists goes in front of their merge. */
  lemma ConsSorts<T>(x: T, a: seq<T>, b: seq<T>, key: T -> string)
    requires StrictlySorted(Merge(a, b, key), key) && StrictlySorted(a, key) && StrictlySorted(b, key)
    requires a != [] ==> Before(x, a[0], key)
    requires b != [] ==> Before(x, b[0], key)
    ensures StrictlySorted([x] + Merge(a, b, key), key)
  {
    hide Merge;
    var m := Merge(a, b, key);
    MergePermutes(a, b, key);
    forall j | 0 <= j < |m| ensures Before(x, m[j], key) {
      SameElements(m, a + b, m[j]);
      if m[j] in a {
        var i :| 0 <= i < |a| && a[i] == m[j];
        if i > 0 { BeforeTransitive(x, a[0], a[i], key); }
      } else {
        var i :| 0 <= i < |b| && b[i] == m[j];
        if i > 0 { BeforeTransitive(x, b[0], b[i], key); }
      }
    }
  }

  /** On distinct keys the result is in strictly ascending order. */
  lemma {:induction false} SortSorts<T>(s: seq<T>, key: T -> string)
    requires DistinctBy(s, key)
    ensures StrictlySorted(Sort(s, key), key)
    decreases |s|
  {
    if |s| <= 1 {
    } else if Ascending(s, key) {
      AscendingIsSorted(s, key);
    } else {
      var mid := (|s| + 1) / 2;
      var a, b := Sort(s[..mid], key), Sort(s[mid..], key);
      SortSorts(s[..mid], key);
      SortSorts(s[mid..], key);
      forall x, y | x in a && y in b ensures Fold(key(x)) != Fold(key(y)) {
        SortPermutes(s[..mid], key);
        SortPermutes(s[mid..], key);
        SameElements(a, s[..mid], x);
        SameElements(b, s[mid..], y);
        var i :| 0 <= i < mid && s[i] == x;
        var j :| mid <= j < |s| && s[j] == y;
      }
      MergeSorts(a, b, key);
    }
  }

  /** There is only one strictly ascending arrangement. */
  lemma {:induction false} SortedIsUnique<T>(s: seq<T>, t: seq<T>, key: T -> string)
    requires StrictlySorted(s, key) && StrictlySorted(t, key) && multiset(s) == multiset(t)
    ensures s == t
    decreases |s|
  {
    if s != [] {
      SameElements(s, t, s[0]);
      assert |t| > 0;
      SameHead(s, t, key);
      SameTail(s, t);
      SortedIsUnique(s[1..], t[1..], key);
    }
  }

  lemma SameHead<T>(s: seq<T>, t: seq<T>, key: T -> string)
    requires StrictlySorted(s, key) && StrictlySorted(t, key) && multiset(s) == multiset(t) && s != [] && t != []
    ensures s[0] == t[0]
  {
    SameElements(s, t, s[0]);
    SameElements(s, t, t[0]);
    HeadIsLeast(s, t[0], key);
    HeadIsLeast(t, s[0], key);
    BeforeTotal(s[0], t[0], key);
  }

  lemma SameTail<T>(s: seq<T>, t: seq<T>)
    requires multiset(s) == multiset(t) && s != [] && t != [] && s[0] == t[0]
    ensures multiset(s[1..]) == multiset(t[1..]) && (s[1..] == t[1..] ==> s == t)
  {
    assert s == [s[0]] + s[1..] && t == [t[0]] + t[1..];
    assert multiset(s[1..]) == multiset(s) - multiset{s[0]};
    assert multiset(t[1..]) == multiset(t) - multiset{t[0]};
  }

  lemma HeadIsLeast<T>(s: seq<T>, x: T, key: T -> string)
    requires StrictlySorted(s, key) && x in s
    ensures x == s[0] || Before(s[0], x, key)
  {
    var i :| 0 <= i < |s| && s[i] == x;
  }

  lemma BeforeOther<T>(x: T, y: T, z: T, key: T -> string)
    requires Before(x, z, key) && !Before(y, z, key)
    ensures Before(x, y, key)
  {
    if Fold(key(y)) != Fold(key(z)) {
      BeforeTotal(y, z, key);
      BeforeTransitive(x, z, y, key);
    }
  }

  /** Nothing is before the head of the sorted order, even when keys repeat. */
  lemma {:induction false} HeadIsFirst<T>(s: seq<T>, key: T -> string)
    requires s != []
    ensures Sort(s, key)[0] in s
    ensures forall x :: x in s ==> !Before(x, Sort(s, key)[0], key)
    decreases |s|
  {
    hide Before, Merge, Ascending;
    var h := Sort(s, key)[0];
    SortPermutes(s, key);
    SameElements(Sort(s, key), s, h);
    if |s| <= 1 || Ascending(s, key) {
      AscendingIsSorted(s, key);
      forall x | x in s ensures !Before(x, h, key) {
        HeadIsLeast(s, x, key);
        BeforeTotal(h, x, key);
      }
    } else {
      var mid := (|s| + 1) / 2;
      var a, b := Sort(s[..mid], key), Sort(s[mid..], key);
      HeadIsFirst(s[..mid], key);
      HeadIsFirst(s[mid..], key);
      assert s == s[..mid] + s[mid..];
      forall x | x in s ensures !Before(x, h, key) {
        MergeHead(a, b, x, key);
      }
    }
  }

  /** The head of a merge; what is not before one of the two heads is not before it. */
  lemma MergeHead<T>(a: seq<T>, b: seq<T>, x: T, key: T -> string)
    requires a != [] && b != []
    ensures Merge(a, b, key)[0] == if Before(a[0], b[0], key) then a[0] else b[0]
    ensures Before(x, Merge(a, b, key)[0], key) ==> Before(x, a[0], key) && Before(x, b[0], key)
  {
    if Before(a[0], b[0], key) {
      if Before(x, a[0], key) { BeforeTransitive(x, a[0], b[0], key); }
    } else if Before(x, b[0], key) {
      BeforeOther(x, a[0], b[0], key);
    }
  }

  /** The first element stays first exactly when it is strictly before every other. */
  lemma {:induction false} FirstStays<T>(s: seq<T>, key: T -> string)
    requires s != [] && forall i, j :: 0 <= i < j < |s| ==> s[i] != s[j]
    ensures Sort(s, key)[0] == s[0] <==> forall i :: 0 < i < |s| ==> Before(s[0], s[i], key)
    decreases |s|
  {
    hide Before;
    HeadIsFirst(s, key);
    if |s| > 1 && Ascending(s, key) {
      AscendingIsSorted(s, key);
    } else if |s| > 1 && Sort(s, key)[0] == s[0] {
      var mid := (|s| + 1) / 2;
      var a, b := Sort(s[..mid], key), Sort(s[mid..], key);
      MergeHead(a, b, s[0], key);
      HeadIsFirst(s[..mid], key);
      HeadIsFirst(s[mid..], key);
      FirstStays(s[..mid], key);
      assert s[0] !in s[mid..];
      forall i | 0 < i < |s| ensures Before(s[0], s[i], key) {
        if i < mid {
          assert s[i] == s[..mid][i];
        } else {
          assert s[i] in s[mid..];
          BeforeOther(s[0], s[i], b[0], key);
        }
      }
    }
  }

  // ---------------------------------------------------------------- the linked list

  /** A member node: its name never changes, its links do. */
  class Node {
    const key: string
    var next: Node?
    var prev: Node?

    constructor (key: string)
      ensures this.key == key && next == null && prev == null
    {
      this.key := key;
      next, prev := null, null;
    }
  }

  ghost predicate NoRepeats(nodes: seq<Node>) {
    forall i, j :: 0 <= i < j < |nodes| ==> nodes[i] != nodes[j]
  }

  /** `nodes` are linked in order up to, but not including, the last node's `next`. The `prev` of the
      first node is not constrained: sort_list leaves it as it was. */
  ghost predicate Chained(nodes: seq<Node>)
    reads nodes
  {
    && NoRepeats(nodes)
    && (forall i :: 0 <= i < |nodes| - 1 ==> nodes[i].next == nodes[i + 1])
    && (forall i :: 0 <= i < |nodes| - 1 ==> nodes[i + 1].prev == nodes[i])
  }

  ghost predicate Linked(list: Node?, nodes: seq<Node>)
    reads nodes
  {
    && Chained(nodes)
    && (nodes == [] ==> list == null)
    && (nodes != [] ==> list == nodes[0] && nodes[|nodes| - 1].next == null)
  }

  function NodeKey(): Node -> string {
    (n: Node) => n.key
  }

  /** The test for a list that is sorted already. */
  method IsAscending(list: Node?, ghost nodes: seq<Node>) returns (yes: bool)
    requires Linked(list, nodes)
    ensures yes == Ascending(nodes, NodeKey())
  {
    var cur := list;
    ghost var i := 0;
    while cur != null && cur.next != null && CompareKeys(cur.key, cur.next.key) < 0
      invariant 0 <= i <= |nodes|
      invariant i < |nodes| ==> cur == nodes[i]
      invariant i == |nodes| ==> cur == null && nodes == []
      invariant i + 1 < |nodes| ==> nodes[i].next == nodes[i + 1]
      invariant forall j :: 0 <= j < i ==> CompareKeys(nodes[j].key, nodes[j + 1].key) < 0
      decreases |nodes| - i
    {
      cur := cur.next;
      i := i + 1;
    }
    yes := cur == null || cur.next == null;
    if yes {
      forall j | 0 <= j < |nodes| - 1 ensures CompareKeys(NodeKey()(nodes[j]), NodeKey()(nodes[j + 1])) < 0 {
        assert CompareKeys(nodes[j].key, nodes[j + 1].key) < 0;
      }
    } else {
      assert CompareKeys(NodeKey()(nodes[i]), NodeKey()(nodes[i + 1])) >= 0;
    }
  }

  /** Two cursors find the middle, and the list is cut in front of it. */
  method Split(list: Node, ghost nodes: seq<Node>) returns (second: Node)
    requires Linked(list, nodes) && |nodes| > 1
    modifies nodes
    ensures var mid := (|nodes| + 1) / 2;
            Linked(list, nodes[..mid]) && Linked(second, nodes[mid..])
    ensures forall n :: n in nodes ==> n.prev == old(n.prev)
  {
    var behind: Node? := list;
    var cur: Node? := list;
    ghost var n, i := |nodes|, 0;
    while cur != null
      invariant 0 <= i <= n && 2 * i <= n + 1
      invariant i < n ==> behind == nodes[i]
      invariant 2 * i < n ==> cur == nodes[2 * i]
      invariant 2 * i >= n ==> cur == null
      decreases n + 1 - 2 * i
    {
      behind := behind.next;
      assert 2 * i + 1 < n ==> nodes[2 * i].next == nodes[2 * i + 1];
      assert 2 * i + 2 < n ==> nodes[2 * i + 1].next == nodes[2 * i + 2];
      cur := cur.next;
      i := i + 1;
      if cur != null {
        cur := cur.next;
      }
    }
    second := behind;
    var before := second.prev;
    assert before == nodes[i - 1];
    if before != null {
      before.next := null;
    }
  }

  lemma LinkedTail(list: Node?, nodes: seq<Node>)
    requires Linked(list, nodes) && nodes != []
    ensures Linked(list.next, nodes[1..])
  {
    if |nodes| > 1 {
      assert nodes[0].next == nodes[1];
    }
    forall i | 0 <= i < |nodes[1..]| - 1
      ensures nodes[1..][i].next == nodes[1..][i + 1] && nodes[1..][i + 1].prev == nodes[1..][i]
    {
      assert nodes[i + 1].next == nodes[i + 1 + 1];
      assert nodes[i + 1 + 1].prev == nodes[i + 1];
    }
  }

  lemma ChainedPrefix(nodes: seq<Node>, n: nat)
    requires Chained(nodes) && n <= |nodes|
    ensures Chained(nodes[..n])
  {
    forall i | 0 <= i < n - 1
      ensures nodes[..n][i].next == nodes[..n][i + 1] && nodes[..n][i + 1].prev == nodes[..n][i]
    {
      assert nodes[i].next == nodes[i + 1] && nodes[i + 1].prev == nodes[i];
    }
  }

  /** result_tail->next = node; node->prev = result_tail: the finished part now runs on into the list. */
  method Attach(tail: Node, node: Node, ghost m: seq<Node>, ghost rest: seq<Node>)
    requires Chained(m) && m != [] && tail == m[|m| - 1]
    requires Linked(node, rest) && rest != [] && NoRepeats(m + rest)
    modifies tail`next, node`prev
    ensures Linked(m[0], m + rest) && Linked(node, rest)
  {
    ghost var all := m + rest;
    assert all[|m| - 1] == tail && all[|m|] == node;
    forall i | 0 <= i < |rest| ensures rest[i] != tail {
      assert all[|m| + i] == rest[i];
    }
    forall i | 0 <= i < |m| ensures m[i] != node {
      assert all[i] == m[i];
    }
    tail.next := node;
    node.prev := tail;
    forall i | 0 <= i < |all| - 1 ensures all[i].next == all[i + 1] && all[i + 1].prev == all[i] {
      if i < |m| - 1 {
        assert all[i] == m[i] && all[i + 1] == m[i + 1];
      } else if i >= |m| {
        assert all[i] == rest[i - |m|] && all[i + 1] == rest[i + 1 - |m|];
      }
    }
  }

  /** Where the merge loop stands: a finished part m, and two lists still to be merged. */
  ghost predicate MergeState(result: Node, tail: Node, first: Node?, second: Node?,
                             m: seq<Node>, a: seq<Node>, b: seq<Node>)
    reads m, a, b
    ensures MergeState(result, tail, first, second, m, a, b) ==>
              && (first == if a == [] then null else a[0])
              && (second == if b == [] then null else b[0])
  {
    && m != [] && result == m[0] && tail == m[|m| - 1]
    && NoRepeats(m + a + b)
    && Chained(m) && Linked(first, a) && Linked(second, b)
  }

  lemma TakeApart(m: seq<Node>, a: seq<Node>, b: seq<Node>)
    requires NoRepeats(m + a + b) && m != [] && a != []
    ensures NoRepeats(m + a)
    ensures forall i :: 0 <= i < |b| ==> b[i] != m[|m| - 1] && b[i] != a[0]
  {
    var all := m + a + b;
    forall i, j | 0 <= i < j < |m + a| ensures (m + a)[i] != (m + a)[j] {
      assert (m + a)[i] == all[i] && (m + a)[j] == all[j];
    }
    forall i | 0 <= i < |b| ensures b[i] != m[|m| - 1] && b[i] != a[0] {
      assert b[i] == all[|m| + |a| + i] && a[0] == all[|m|] && m[|m| - 1] == all[|m| - 1];
    }
  }

  /** One turn: the head of one list joins the finished part; the other list is untouched. */
  method Take(result: Node, tail: Node, node: Node, other: Node?,
              ghost m: seq<Node>, ghost a: seq<Node>, ghost b: seq<Node>)
    returns (next: Node?)
    requires MergeState(result, tail, node, other, m, a, b) && a != []
    modifies tail`next, node`prev
    ensures MergeState(result, node, next, other, m + [node], a[1..], b)
    ensures result.prev == old(result.prev)
  {
    TakeApart(m, a, b);
    Attach(tail, node, m, a);
    next := node.next;
    LinkedTail(node, a);
    ChainedPrefix(m + a, |m| + 1);
    assert (m + a)[..|m| + 1] == m + [node];
    assert m + [node] + a[1..] + b == m + a + b;
  }

  /** The body of the merge loop, with i nodes of one list and j of the other already merged. */
  method MergeTurn(result: Node, tail: Node, first: Node, second: Node,
                   ghost m: seq<Node>, ghost a: seq<Node>, ghost b: seq<Node>, ghost i: nat, ghost j: nat)
    returns (tail': Node, first': Node?, second': Node?, ghost i': nat, ghost j': nat)
    requires i < |a| && j < |b| && MergeState(result, tail, first, second, m, a[i..], b[j..])
    modifies tail`next, first`prev, second`prev
    ensures i <= i' <= |a| && j <= j' <= |b| && i' + j' == i + j + 1
    ensures MergeState(result, tail', first', second', m + [tail'], a[i'..], b[j'..])
    ensures m + Merge(a[i..], b[j..], NodeKey()) == m + [tail'] + Merge(a[i'..], b[j'..], NodeKey())
    ensures tail' == first || tail' == second
    ensures result.prev == old(result.prev)
  {
    hide MergeState, Merge;
    assert a[i..][1..] == a[i + 1..] && b[j..][1..] == b[j + 1..];
    MergeStep(a[i..], b[j..]);
    if CompareKeys(first.key, second.key) < 0 {
      tail', second', i', j' := first, second, i + 1, j;
      first' := Take(result, tail, first, second, m, a[i..], b[j..]);
    } else {
      tail', first', i', j' := second, first, i, j + 1;
      MergeStateSwaps(result, tail, first, second, m, a[i..], b[j..]);
      second' := Take(result, tail, second, first, m, b[j..], a[i..]);
      MergeStateSwaps(result, tail', second', first', m + [tail'], b[j'..], a[i'..]);
    }
    Regroup(m, tail', Merge(a[i'..], b[j'..], NodeKey()));
  }

  lemma Regroup(m: seq<Node>, n: Node, rest: seq<Node>)
    ensures m + ([n] + rest) == m + [n] + rest
  {
  }

  lemma MergeStep(a: seq<Node>, b: seq<Node>)
    requires a != [] && b != []
    ensures Merge(a, b, NodeKey()) ==
            if CompareKeys(a[0].key, b[0].key) < 0 then [a[0]] + Merge(a[1..], b, NodeKey())
            else [b[0]] + Merge(a, b[1..], NodeKey())
  {
  }

  /** The first turn starts the merged list. */
  method FirstNode(list1: Node, list2: Node, ghost a: seq<Node>, ghost b: seq<Node>)
    returns (result: Node, first: Node?, second: Node?, ghost i: nat, ghost j: nat)
    requires Linked(list1, a) && Linked(list2, b) && a != [] && b != [] && NoRepeats(a + b)
    ensures i + j == 1 && (result == a[0] == list1 || result == b[0] == list2)
    ensures MergeState(result, result, first, second, [result], a[i..], b[j..])
    ensures Merge(a, b, NodeKey()) == [result] + Merge(a[i..], b[j..], NodeKey())
  {
    if CompareKeys(list1.key, list2.key) < 0 {
      StartMerge(list1, list2, a, b);
      assert b[0..] == b;
      result, first, second, i, j := list1, list1.next, list2, 1, 0;
    } else {
      assert [] + a + b == a + b && [] + b + a == b + a && a[0..] == a;
      RotateNoRepeats([], a, b);
      StartMerge(list2, list1, b, a);
      MergeStateSwaps(list2, list2, list2.next, list1, [list2], b[1..], a);
      result, first, second, i, j := list2, list1, list2.next, 0, 1;
    }
  }

  /** The merge loop: the smaller head first, until one list is used up. */
  method MergeLists(list1: Node, list2: Node, ghost a: seq<Node>, ghost b: seq<Node>) returns (result: Node)
    requires Linked(list1, a) && Linked(list2, b) && a != [] && b != [] && NoRepeats(a + b)
    modifies a, b
    ensures Linked(result, Merge(a, b, NodeKey()))
    ensures (result == list1 || result == list2) && result.prev == old(result.prev)
  {
    hide MergeState, Merge, Linked, Chained, NoRepeats;
    var first, second;
    ghost var i: nat, j: nat;
    result, first, second, i, j := FirstNode(list1, list2, a, b);
    var tail := result;
    ghost var m: seq<Node> := [result];
    while first != null && second != null
      invariant i <= |a| && j <= |b| && (i < |a| || j < |b|)
      invariant MergeState(result, tail, first, second, m, a[i..], b[j..])
      invariant tail in a || tail in b
      invariant Merge(a, b, NodeKey()) == m + Merge(a[i..], b[j..], NodeKey())
      invariant (result == list1 || result == list2) && result.prev == old(result.prev)
      decreases |a| - i + |b| - j
    {
      assert first == a[i] && second == b[j];
      tail, first, second, i, j := MergeTurn(result, tail, first, second, m, a, b, i, j);
      m := m + [tail];
    }
    assert (first != null ==> first == a[i]) && (second != null ==> second == b[j]);
    AppendRest(result, tail, first, second, m, a[i..], b[j..]);
  }

  /** What is left of one list goes to the end of the finished part. */
  method AppendRest(result: Node, tail: Node, first: Node?, second: Node?,
                    ghost m: seq<Node>, ghost a: seq<Node>, ghost b: seq<Node>)
    requires MergeState(result, tail, first, second, m, a, b)
    requires (a == []) != (b == [])
    modifies tail`next, if first != null then {first} else {}, if second != null then {second} else {}
    ensures Linked(result, m + Merge(a, b, NodeKey()))
    ensures result.prev == old(result.prev)
  {
    if first != null {
      assert m + a + b == m + a && (m + a)[0] == result && (m + a)[|m|] == first;
      Attach(tail, first, m, a);
    }
    if second != null {
      assert m + a + b == m + b && (m + b)[0] == result && (m + b)[|m|] == second;
      Attach(tail, second, m, b);
    }
  }

  lemma StartMerge(node: Node, other: Node?, a: seq<Node>, b: seq<Node>)
    requires Linked(node, a) && Linked(other, b) && a != [] && NoRepeats(a + b)
    ensures MergeState(node, node, node.next, other, [node], a[1..], b)
  {
    LinkedTail(node, a);
    assert [node] + a[1..] + b == a + b;
  }

  lemma RotateNoRepeats(m: seq<Node>, a: seq<Node>, b: seq<Node>)
    requires NoRepeats(m + a + b)
    ensures NoRepeats(m + b + a)
  {
    var s, t := m + a + b, m + b + a;
    forall i, j | 0 <= i < j < |t| ensures t[i] != t[j] {
      assert t[i] == s[Swapped(i, |m|, |a|, |b|)] && t[j] == s[Swapped(j, |m|, |a|, |b|)];
    }
  }

  lemma MergeStateSwaps(result: Node, tail: Node, first: Node?, second: Node?,
                        m: seq<Node>, a: seq<Node>, b: seq<Node>)
    requires MergeState(result, tail, first, second, m, a, b)
    ensures MergeState(result, tail, second, first, m, b, a)
  {
    RotateNoRepeats(m, a, b);
  }

  /** Where position i of m + b + a is found in m + a + b. */
  function Swapped(i: nat, m: nat, a: nat, b: nat): nat {
    if i < m then i else if i < m + b then i + a else if i < m + a + b then i - b else i
  }

  method SortList(list: Node?, ghost nodes: seq<Node>) returns (result: Node?)
    requires Linked(list, nodes)
    modifies nodes
    ensures Linked(result, Sort(nodes, NodeKey())) && (list != null ==> result != null)
    ensures result != null ==> result in nodes && result.prev == old(result.prev)
    decreases |nodes|, 1
  {
    hide Sort, Ascending, Merge;
    SortStep(nodes);
    assert |nodes| > 1 ==> nodes[0].next == nodes[1];
    if list == null || list.next == null { return list; }
    var sorted := IsAscending(list, nodes);
    if sorted { return list; }
    ghost var mid := (|nodes| + 1) / 2;
    ghost var a, b := nodes[..mid], nodes[mid..];
    assert a + b == nodes;
    var second := Split(list, nodes);
    result := SortHalves(list, second, a, b);
  }

  /** sort_object. The new first node keeps its old `prev`, so it is NULL, as detaching a first member
      needs it to be, exactly when the first node has not changed. */
  method SortObject(child: Node, ghost nodes: seq<Node>) returns (result: Node)
    requires Linked(child, nodes) && child.prev == null
    modifies nodes
    ensures Linked(result, Sort(nodes, NodeKey()))
    ensures result.prev == null <==> result == child
    ensures result.prev != null ==> result.prev in nodes && result.prev != result
  {
    assert forall i :: 0 <= i < |nodes| - 1 ==> nodes[i + 1].prev == nodes[i];
    result := SortList(child, nodes);
    ghost var i :| 0 <= i < |nodes| && nodes[i] == result;
    assert i > 0 ==> old(nodes[i - 1 + 1].prev) == nodes[i - 1];
  }

  /** Sorts both halves and merges them. */
  method SortHalves(list1: Node, list2: Node, ghost a: seq<Node>, ghost b: seq<Node>) returns (result: Node)
    requires Linked(list1, a) && Linked(list2, b) && a != [] && b != [] && NoRepeats(a + b)
    modifies a, b
    ensures Linked(result, Merge(Sort(a, NodeKey()), Sort(b, NodeKey()), NodeKey()))
    ensures result in a + b && result.prev == old(result.prev)
    decreases |a| + |b|, 0
  {
    hide Sort, Merge;
    ghost var a', b' := Sort(a, NodeKey()), Sort(b, NodeKey());
    HalvesApart(a, b);
    label start:
    var first := SortList(list1, a);
    assert forall i :: 0 <= i < |b| ==> b[i].next == old@start(b[i].next) && b[i].prev == old@start(b[i].prev);
    assert Linked(list2, b);
    var second := SortList(list2, b);
    assert forall i :: 0 <= i < |a'| ==> a'[i] in a;
    assert forall i :: 0 <= i < |b'| ==> b'[i] in b;
    result := MergeLists(first, second, a', b');
  }

  lemma SortStep(nodes: seq<Node>)
    ensures Sort(nodes, NodeKey()) ==
            if |nodes| <= 1 || Ascending(nodes, NodeKey()) then nodes
            else var mid := (|nodes| + 1) / 2;
                 Merge(Sort(nodes[..mid], NodeKey()), Sort(nodes[mid..], NodeKey()), NodeKey())
  {
  }

  /** The sorted halves hold the nodes of the halves, and share none. */
  lemma HalvesApart(a: seq<Node>, b: seq<Node>)
    requires NoRepeats(a + b)
    ensures var a', b' := Sort(a, NodeKey()), Sort(b, NodeKey());
            && NoRepeats(a' + b')
            && (forall n :: n in a' ==> n in a) && (forall n :: n in b' ==> n in b)
            && (forall i :: 0 <= i < |b| ==> b[i] !in a)
  {
    hide Sort;
    var a', b' := Sort(a, NodeKey()), Sort(b, NodeKey());
    SortPermutes(a, NodeKey());
    SortPermutes(b, NodeKey());
    forall n | n in a' ensures n in a { SameElements(a', a, n); }
    forall n | n in b' ensures n in b { SameElements(b', b, n); }
    assert multiset(a' + b') == multiset(a + b);
    NoRepeatsIsCount(a + b);
    NoRepeatsByCount(a' + b');
    forall i | 0 <= i < |b| ensures b[i] !in a {
      assert (a + b)[|a| + i] == b[i];
      assert forall j :: 0 <= j < |a| ==> (a + b)[j] == a[j];
    }
  }

  lemma {:induction false} NoRepeatsIsCount(s: seq<Node>)
    requires NoRepeats(s)
    ensures forall n :: multiset(s)[n] <= 1
  {
    if s != [] {
      NoRepeatsIsCount(s[1..]);
      assert s == [s[0]] + s[1..];
      assert s[0] !in s[1..];
    }
  }

  lemma NoRepeatsByCount(s: seq<Node>)
    requires forall n :: multiset(s)[n] <= 1
    ensures NoRepeats(s)
  {
    forall i, j | 0 <= i < j < |s| ensures s[i] != s[j] {
      assert s == s[..j] + s[j..];
      assert multiset(s) == multiset(s[..j]) + multiset(s[j..]);
      assert s[i] in multiset(s[..j]) && s[j] in multiset(s[j..]);
      assert s[i] == s[j] ==> multiset(s)[s[i]] > 1;
    }
  }
}
