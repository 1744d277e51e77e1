/** The intrusive circular doubly linked list of libutils/list.h. */
module IntrusiveList {

  class ListNode {
    var next: ListNode
    var prev: ListNode

    /** list_init (and list_declare). */
    constructor ()
      ensures next == this && prev == this
    {
      next, prev := this, this;
    }
  }

  function NodesOf(head: ListNode, items: seq<ListNode>): set<ListNode>
  {
    {head} + (set x | x in items)
  }

  /** The k-th node of the ring, the head at both ends. */
  function At(head: ListNode, items: seq<ListNode>, k: int): ListNode
    requires -1 <= k <= |items|
  {
    if 0 <= k < |items| then items[k] else head
  }

  ghost predicate Linked(head: ListNode, items: seq<ListNode>, k: int)
    requires -1 <= k < |items|
    reads NodesOf(head, items)
  {
    At(head, items, k).next == At(head, items, k + 1) && At(head, items, k + 1).prev == At(head, items, k)
  }

  /** A well-formed ring: the head and the items are different nodes, and next and prev, each the
      inverse of the other, lead through them in order. */
  ghost predicate Ring(head: ListNode, items: seq<ListNode>)
    reads NodesOf(head, items)
  {
    && head !in items
    && (forall i, j | 0 <= i < j < |items| :: items[i] != items[j])
    && (forall k | -1 <= k < |items| :: Linked(head, items, k))
  }

  /** The ring through a head represents one sequence only. */
  lemma {:induction false} RingUnique(head: ListNode, a: seq<ListNode>, b: seq<ListNode>)
    requires Ring(head, a) && Ring(head, b)
    ensures a == b
  {
    var n := if |a| < |b| then |a| else |b|;
    SamePrefix(head, a, b, n);
    assert Linked(head, a, n - 1) && Linked(head, b, n - 1);
    assert n > 0 ==> a[n - 1] == a[..n][n - 1] && b[n - 1] == b[..n][n - 1];
    assert At(head, a, n) == At(head, b, n);
    assert a == a[..n] && b == b[..n];
  }

  lemma {:induction false} SamePrefix(head: ListNode, a: seq<ListNode>, b: seq<ListNode>, n: nat)
    requires Ring(head, a) && Ring(head, b) && n <= |a| && n <= |b|
    ensures a[..n] == b[..n]
  {
    if n > 0 {
      SamePrefix(head, a, b, n - 1);
      assert n > 1 ==> a[n - 2] == a[..n - 1][n - 2] && b[n - 2] == b[..n - 1][n - 2];
      assert Linked(head, a, n - 2) && Linked(head, b, n - 2);
    }
  }

  /** list_init. */
  method ListInit(node: ListNode)
    modifies node
    ensures Ring(node, [])
  {
    node.next := node;
    node.prev := node;
  }

  /** list_add_tail: the item is appended. */
  method ListAddTail(head: ListNode, item: ListNode, ghost items: seq<ListNode>)
    requires Ring(head, items) && item != head && item !in items
    modifies head, item, head.prev
    ensures Ring(head, items + [item])
  {
    ghost var n := |items|;
    assert Linked(head, items, n - 1);
    assert head.prev == At(head, items, n - 1);
    label before:
    item.next := head;
    item.prev := head.prev;
    head.prev.next := item;
    head.prev := item;
    ghost var all := items + [item];
    forall k | -1 <= k < |all|
      ensures Linked(head, all, k)
    {
      if k < n - 1 {
        assert old@before(Linked(head, items, k));
      }
    }
  }

  /** list_add_head: the item is put in front. */
  method ListAddHead(head: ListNode, item: ListNode, ghost items: seq<ListNode>)
    requires Ring(head, items) && item != head && item !in items
    modifies head, item, head.next
    ensures Ring(head, [item] + items)
  {
    assert Linked(head, items, -1);
    assert head.next == At(head, items, 0);
    label before:
    item.next := head.next;
    item.prev := head;
    head.next.prev := item;
    head.next := item;
    ghost var all := [item] + items;
    forall k | -1 <= k < |all|
      ensures Linked(head, all, k)
    {
      if k > 0 {
        assert old@before(Linked(head, items, k - 1));
      }
    }
  }

  /** list_remove of the i-th item: the others stay in order, and the item keeps its own pointers. */
  method ListRemove(ghost head: ListNode, item: ListNode, ghost items: seq<ListNode>, ghost i: nat)
    requires Ring(head, items) && i < |items| && items[i] == item
    modifies item.next, item.prev
    ensures Ring(head, items[..i] + items[i + 1..])
    ensures item.next == old(item.next) && item.prev == old(item.prev)
  {
    assert Linked(head, items, i) && Linked(head, items, i - 1);
    assert item.next == At(head, items, i + 1) && item.prev == At(head, items, i - 1);
    label before:
    item.next.prev := item.prev;
    item.prev.next := item.next;
    ghost var rest := items[..i] + items[i + 1..];
    forall k | -1 <= k < |rest|
      ensures Linked(head, rest, k)
    {
      assert old@before(Linked(head, items, if k < i - 1 then k else if k == i - 1 then i else k + 1));
    }
  }

  /** list_empty. */
  method ListEmpty(list: ListNode, ghost items: seq<ListNode>) returns (empty: bool)
    requires Ring(list, items)
    ensures empty <==> items == []
  {
    assert Linked(list, items, -1);
    return list == list.next;
  }

  /** list_for_each: visits the items in order, and ends. */
  method ListForEach(list: ListNode, ghost items: seq<ListNode>) returns (visited: seq<ListNode>)
    requires Ring(list, items)
    ensures visited == items
  {
    visited := [];
    var node := list.next;
    assert Linked(list, items, -1);
    while node != list
      invariant |visited| <= |items| && visited == items[..|visited|]
      invariant node == At(list, items, |visited|)
      decreases |items| - |visited|
    {
      assert Linked(list, items, |visited|);
      visited := visited + [node];
      node := node.next;
    }
  }

  function Reversed<T>(s: seq<T>): (r: seq<T>)
    ensures |r| == |s|
  {
    seq(|s|, i requires 0 <= i < |s| => s[|s| - 1 - i])
  }

  /** list_for_each_reverse: visits the items from the last to the first, and ends. */
  method ListForEachReverse(list: ListNode, ghost items: seq<ListNode>) returns (visited: seq<ListNode>)
    requires Ring(list, items)
    ensures visited == Reversed(items)
  {
    visited := [];
    var node := list.prev;
    assert Linked(list, items, |items| - 1);
    while node != list
      invariant |visited| <= |items| && visited == Reversed(items)[..|visited|]
      invariant node == At(list, items, |items| - 1 - |visited|)
      decreases |items| - |visited|
    {
      assert Linked(list, items, |items| - 2 - |visited|);
      visited := visited + [node];
      node := node.prev;
    }
  }

  /** The items that are not to be removed. */
  function Kept(items: seq<ListNode>, doomed: set<ListNode>): (kept: seq<ListNode>)
  {
    if items == [] then []
    else if items[0] in doomed then Kept(items[1..], doomed)
    else [items[0]] + Kept(items[1..], doomed)
  }

  /** In a ring of kept items followed by the rest, what follows the first of the rest. */
  lemma RestFollows(head: ListNode, kept: seq<ListNode>, rest: seq<ListNode>)
    requires Ring(head, kept + rest) && rest != []
    ensures rest[0] != head && rest[0].next == At(head, rest, 1)
    ensures kept + rest == (kept + [rest[0]]) + rest[1..]
  {
    var all, k := kept + rest, |kept|;
    assert all[k] == rest[0];
    assert Linked(head, all, k);
    assert k + 1 < |all| ==> all[k + 1] == rest[1];
  }

  /** The body of the traversal: the current node goes or stays. */
  method RemoveIfDoomed(head: ListNode, node: ListNode, doomed: set<ListNode>,
                        ghost kept: seq<ListNode>, ghost rest: seq<ListNode>)
    requires Ring(head, kept + rest) && rest != [] && rest[0] == node
    modifies NodesOf(head, kept + rest)
    ensures Ring(head, (if node in doomed then kept else kept + [node]) + rest[1..])
  {
    RestFollows(head, kept, rest);
    if node in doomed {
      ghost var all, k := kept + rest, |kept|;
      assert Linked(head, all, k) && Linked(head, all, k - 1);
      assert all[..k] + all[k + 1..] == kept + rest[1..];
      ListRemove(head, node, all, k);
    }
  }

  /** list_for_each_safe with a body that removes some of the nodes it meets: every item is still visited once, in
      order, and exactly the chosen ones are gone. */
  method RemoveDuringForEachSafe(list: ListNode, doomed: set<ListNode>, ghost items: seq<ListNode>)
    returns (visited: seq<ListNode>)
    requires Ring(list, items)
    modifies NodesOf(list, items)
    ensures visited == items
    ensures Ring(list, Kept(items, doomed))
  {
    hide Ring, Kept;
    visited := [];
    FirstLink(list, items);
    var node := list.next;
    var n := node.next;
    ghost var kept: seq<ListNode> := [];
    ghost var rest := items;
    assert kept + rest == items;
    while node != list
      invariant visited + rest == items
      invariant node == At(list, rest, 0)
      invariant node != list ==> n == node.next
      invariant Ring(list, kept + rest) && list !in items
      invariant Kept(items, doomed) == kept + Kept(rest, doomed)
      invariant forall x | x in kept :: x in items
      decreases |rest|
    {
      RestFollows(list, kept, rest);
      KeptStep(kept, rest, doomed);
      assert forall x | x in kept + rest :: x in items;
      RemoveIfDoomed(list, node, doomed, kept, rest);
      assert visited + [node] + rest[1..] == visited + rest;
      kept := if node in doomed then kept else kept + [node];
      visited := visited + [node];
      rest := rest[1..];
      node := n;
      if node != list {
        n := node.next;
      }
    }
    AtTheEnd(list, visited, rest);
    assert visited + [] == visited && kept + [] == kept;
    NothingKept(doomed);
  }

  lemma AtTheEnd(head: ListNode, visited: seq<ListNode>, rest: seq<ListNode>)
    requires head !in visited + rest && At(head, rest, 0) == head
    ensures rest == []
  {
  }

  lemma KeptStep(kept: seq<ListNode>, rest: seq<ListNode>, doomed: set<ListNode>)
    requires rest != []
    ensures var next := if rest[0] in doomed then kept else kept + [rest[0]];
      kept + Kept(rest, doomed) == next + Kept(rest[1..], doomed)
  {
  }

  lemma NothingKept(doomed: set<ListNode>)
    ensures Kept([], doomed) == []
  {
  }

  lemma FirstLink(head: ListNode, items: seq<ListNode>)
    requires Ring(head, items)
    ensures Linked(head, items, -1) && head !in items
  {
  }

  // ---------- runs ----------

  datatype Edit = AddTail(item: ListNode) | AddHead(item: ListNode) | Remove(item: ListNode)

  /** Only nodes outside the list are added, and only items of the list removed. */
  predicate Fits(head: ListNode, items: seq<ListNode>, edit: Edit)
  {
    match edit
    case AddTail(item) => item != head && item !in items
    case AddHead(item) => item != head && item !in items
    case Remove(item) => item in items
  }

  /** What an edit makes of the represented sequence. */
  function Edited(items: seq<ListNode>, edit: Edit): seq<ListNode>
  {
    match edit
    case AddTail(item) => items + [item]
    case AddHead(item) => [item] + items
    case Remove(item) => Kept(items, {item})
  }

  predicate AllFit(head: ListNode, items: seq<ListNode>, edits: seq<Edit>)
    decreases |edits|
  {
    edits == [] || (Fits(head, items, edits[0]) && AllFit(head, Edited(items, edits[0]), edits[1..]))
  }

  function EditedAll(items: seq<ListNode>, edits: seq<Edit>): seq<ListNode>
    decreases |edits|
  {
    if edits == [] then items else EditedAll(Edited(items, edits[0]), edits[1..])
  }

  lemma {:induction false} KeptAll(items: seq<ListNode>, doomed: set<ListNode>)
    requires forall x | x in items :: x !in doomed
    ensures Kept(items, doomed) == items
  {
    if items != [] {
      KeptAll(items[1..], doomed);
      assert items == [items[0]] + items[1..];
    }
  }

  lemma {:induction false} KeptWithoutOne(items: seq<ListNode>, i: nat)
    requires i < |items| && forall j, k | 0 <= j < k < |items| :: items[j] != items[k]
    ensures Kept(items, {items[i]}) == items[..i] + items[i + 1..]
  {
    if i == 0 {
      KeptAll(items[1..], {items[0]});
    } else {
      KeptWithoutOne(items[1..], i - 1);
      assert items[..i] + items[i + 1..] == [items[0]] + (items[1..][..i - 1] + items[1..][i..]);
    }
  }

  /** One edit of a ring whose nodes are all among the given ones. */
  method PerformOne(head: ListNode, edit: Edit, ghost items: seq<ListNode>, ghost nodes: set<ListNode>)
    requires Ring(head, items) && Fits(head, items, edit)
    requires NodesOf(head, items) <= nodes && edit.item in nodes
    modifies nodes
    ensures Ring(head, Edited(items, edit)) && NodesOf(head, Edited(items, edit)) <= nodes
  {
    match edit
    case AddTail(item) =>
      assert Linked(head, items, |items| - 1);
      ListAddTail(head, item, items);
    case AddHead(item) =>
      assert Linked(head, items, -1);
      ListAddHead(head, item, items);
    case Remove(item) =>
      ghost var i :| 0 <= i < |items| && items[i] == item;
      assert Linked(head, items, i) && Linked(head, items, i - 1);
      KeptWithoutOne(items, i);
      ListRemove(head, item, items, i);
  }

  /** Over every sequence of additions and removals that fit, the ring stays well-formed and represents the sequence
      that appending, prepending and deleting make. */
  method Perform(head: ListNode, edits: seq<Edit>, ghost items: seq<ListNode>, ghost nodes: set<ListNode>)
    requires Ring(head, items) && AllFit(head, items, edits)
    requires NodesOf(head, items) <= nodes && forall edit | edit in edits :: edit.item in nodes
    modifies nodes
    ensures Ring(head, EditedAll(items, edits))
  {
    hide Ring, Edited, Fits;
    ghost var now := items;
    assert edits[0..] == edits;
    for i := 0 to |edits|
      invariant Ring(head, now) && NodesOf(head, now) <= nodes
      invariant AllFit(head, now, edits[i..])
      invariant EditedAll(now, edits[i..]) == EditedAll(items, edits)
    {
      assert edits[i..][0] == edits[i] && edits[i..][1..] == edits[i + 1..];
      PerformOne(head, edits[i], now, nodes);
      now := Edited(now, edits[i]);
    }
  }
}
