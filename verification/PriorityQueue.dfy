/**
  The binary heap of source/priority_queue.c. Each item may have a node held by
  the client, through which it can be removed from the middle of the heap.
 */
module PriorityQueues {
  import opened Options

  const SIZE_MAX: nat := 0xFFFF_FFFF_FFFF_FFFF

  /** struct aws_priority_queue_node. */
  class Node {
    var currentIndex: nat

    constructor ()
      ensures currentIndex == SIZE_MAX
    {
      currentIndex := SIZE_MAX;
    }
  }

  // ---------- heap order ----------

  function Parent(i: nat): (p: nat)
    requires i > 0
    ensures p < i && (i == LeftOf(p) || i == RightOf(p))
  {
    if i % 2 == 1 then i / 2 else (i - 2) / 2
  }

  function LeftOf(i: nat): nat {
    2 * i + 1
  }

  function RightOf(i: nat): nat {
    2 * i + 2
  }

  /** On these items, "not after" is a total preorder. */
  ghost predicate OrderOn<T>(after: (T, T) -> bool, m: multiset<T>) {
    && (forall a, b :: a in m && b in m ==> !(after(a, b) && after(b, a)))
    && (forall a, b, c :: a in m && b in m && c in m && !after(a, b) && !after(b, c) ==> !after(a, c))
  }

  ghost predicate ChildOk<T>(after: (T, T) -> bool, c: seq<T>, j: nat)
    requires 0 < j < |c|
  {
    !after(c[Parent(j)], c[j])
  }

  ghost predicate Heap<T>(after: (T, T) -> bool, c: seq<T>) {
    forall j :: 0 < j < |c| ==> ChildOk(after, c, j)
  }

  /** Heap order, but for the item at k; its parent still comes before its children. */
  ghost predicate HeapBut<T>(after: (T, T) -> bool, c: seq<T>, k: nat) {
    && (forall j :: 0 < j < |c| && j != k && Parent(j) != k ==> ChildOk(after, c, j))
    && (forall j :: 0 < j < |c| && Parent(j) == k && 0 < k ==> !after(c[Parent(k)], c[j]))
  }

  ghost predicate AboveChildren<T>(after: (T, T) -> bool, c: seq<T>, k: nat)
    requires k < |c|
  {
    forall j :: 0 < j < |c| && Parent(j) == k ==> ChildOk(after, c, j)
  }

  ghost predicate BelowParent<T>(after: (T, T) -> bool, c: seq<T>, k: nat)
    requires k < |c|
  {
    k > 0 ==> ChildOk(after, c, k)
  }

  lemma HeapIff<T>(after: (T, T) -> bool, c: seq<T>, k: nat)
    requires k < |c|
    ensures HeapBut(after, c, k) && AboveChildren(after, c, k) && BelowParent(after, c, k) ==> Heap(after, c)
  {
  }

  function Swapped<T>(c: seq<T>, a: nat, b: nat): (r: seq<T>)
    requires a < |c| && b < |c|
    ensures |r| == |c|
  {
    c[a := c[b]][b := c[a]]
  }

  lemma SwappedBag<T>(c: seq<T>, a: nat, b: nat)
    requires a < |c| && b < |c|
    ensures multiset(Swapped(c, a, b)) == multiset(c)
  {
  }

  /** The smallest item is at the root. */
  lemma {:induction false} RootIsLeast<T>(after: (T, T) -> bool, c: seq<T>, i: nat)
    requires OrderOn(after, multiset(c)) && Heap(after, c) && i < |c|
    ensures !after(c[0], c[i])
  {
    assert c[0] in multiset(c) && c[i] in multiset(c);
    if i > 0 {
      RootIsLeast(after, c, Parent(i));
      assert ChildOk(after, c, i);
      assert c[Parent(i)] in multiset(c);
    }
  }

  lemma SwapUp<T>(after: (T, T) -> bool, c: seq<T>, k: nat)
    requires 0 < k < |c| && OrderOn(after, multiset(c)) && HeapBut(after, c, k) && after(c[Parent(k)], c[k])
    ensures var r := Swapped(c, k, Parent(k)); HeapBut(after, r, Parent(k)) && AboveChildren(after, r, Parent(k))
  {
    var p := Parent(k);
    var r := Swapped(c, k, p);
    assert forall i :: 0 <= i < |c| ==> c[i] in multiset(c);
    forall j | 0 < j < |r| && j != p
      ensures ChildOk(after, r, j)
    {
      if j == k {
      } else if Parent(j) == k {
      } else {
        assert ChildOk(after, c, j);
      }
    }
    forall j | 0 < j < |r| && Parent(j) == p && 0 < p
      ensures !after(r[Parent(p)], r[j])
    {
      assert ChildOk(after, c, p);
      if j != k {
        assert ChildOk(after, c, j);
      }
    }
  }

  lemma SwapDown<T>(after: (T, T) -> bool, c: seq<T>, k: nat, first: nat)
    requires 0 < first < |c| && Parent(first) == k && OrderOn(after, multiset(c))
    requires HeapBut(after, c, k) && BelowParent(after, c, k) && after(c[k], c[first])
    requires forall j :: 0 < j < |c| && Parent(j) == k ==> !after(c[first], c[j])
    ensures var r := Swapped(c, first, k); HeapBut(after, r, first) && BelowParent(after, r, first)
  {
    var r := Swapped(c, first, k);
    assert forall i :: 0 <= i < |c| ==> c[i] in multiset(c);
    forall j | 0 < j < |r| && j != first && Parent(j) != first
      ensures ChildOk(after, r, j)
    {
      if j != k && Parent(j) != k {
        assert ChildOk(after, c, j);
      }
    }
    forall j | 0 < j < |r| && Parent(j) == first
      ensures !after(r[Parent(first)], r[j])
    {
      assert ChildOk(after, c, j);
    }
  }

  /** Replacing the item at k by the last one breaks the order only at k. */
  lemma RemoveKeepsBut<T>(after: (T, T) -> bool, c: seq<T>, k: nat)
    requires k < |c| - 1 && OrderOn(after, multiset(c)) && Heap(after, c)
    ensures HeapBut(after, Swapped(c, k, |c| - 1)[..|c| - 1], k)
  {
    var r := Swapped(c, k, |c| - 1)[..|c| - 1];
    assert forall i :: 0 <= i < |c| ==> c[i] in multiset(c);
    forall j | 0 < j < |r| && j != k && Parent(j) != k
      ensures ChildOk(after, r, j)
    {
      assert ChildOk(after, c, j);
    }
    forall j | 0 < j < |r| && Parent(j) == k && 0 < k
      ensures !after(r[Parent(k)], r[j])
    {
      assert ChildOk(after, c, j) && ChildOk(after, c, k);
    }
  }

  /** Dropping the last item keeps the order. */
  lemma PopKeepsHeap<T>(after: (T, T) -> bool, c: seq<T>)
    requires |c| > 0 && Heap(after, c)
    ensures Heap(after, c[..|c| - 1])
  {
    var r := c[..|c| - 1];
    forall j | 0 < j < |r|
      ensures ChildOk(after, r, j)
    {
      assert ChildOk(after, c, j);
    }
  }

  lemma PushKeepsBut<T>(after: (T, T) -> bool, c: seq<T>, item: T)
    requires Heap(after, c)
    ensures HeapBut(after, c + [item], |c|) && AboveChildren(after, c + [item], |c|)
  {
    var r := c + [item];
    forall j | 0 < j < |c|
      ensures ChildOk(after, r, j)
    {
      assert ChildOk(after, c, j);
    }
  }

  /** The child the sift moves towards comes before both children. */
  lemma FirstChild<T>(after: (T, T) -> bool, c: seq<T>, k: nat, first: nat)
    requires LeftOf(k) < |c| && OrderOn(after, multiset(c))
    requires first == FirstOf(after, c, k)
    ensures first == k ==> AboveChildren(after, c, k)
    ensures first != k ==> 0 < first < |c| && Parent(first) == k && after(c[k], c[first])
    ensures first != k ==> forall j :: 0 < j < |c| && Parent(j) == k ==> !after(c[first], c[j])
  {
    assert forall i :: 0 <= i < |c| ==> c[i] in multiset(c);
    assert forall j :: 0 < j < |c| && Parent(j) == k ==> j == LeftOf(k) || j == RightOf(k);
  }

  /** s_sift_down's choice among the item and its children. */
  function FirstOf<T>(after: (T, T) -> bool, c: seq<T>, k: nat): nat
    requires LeftOf(k) < |c|
  {
    var first := if after(c[k], c[LeftOf(k)]) then LeftOf(k) else k;
    if RightOf(k) < |c| && after(c[first], c[RightOf(k)]) then RightOf(k) else first
  }

  // ---------- the queue ----------

  /** Item and node of every slot; without a backpointer array no slot has a node. */
  ghost function Zip<T>(container: seq<T>, back: Option<seq<Node?>>): (r: seq<(T, Node?)>)
    requires back.Some? ==> |back.value| == |container|
    ensures |r| == |container|
    ensures forall i :: 0 <= i < |r| ==> r[i].0 == container[i] && r[i].1 == (if back.None? then null else back.value[i])
  {
    seq(|container|, i requires 0 <= i < |container| => (container[i], if back.None? then null else back.value[i]))
  }

  ghost function SwapBack(back: Option<seq<Node?>>, a: nat, b: nat): (r: Option<seq<Node?>>)
    requires back.Some? ==> a < |back.value| && b < |back.value|
  {
    if back.None? then None else Some(Swapped(back.value, a, b))
  }

  ghost function DropLast(back: Option<seq<Node?>>): (r: Option<seq<Node?>>)
    requires back.Some? ==> |back.value| > 0
  {
    if back.None? then None else Some(back.value[..|back.value| - 1])
  }

  /** Every node knows where its item is. */
  ghost predicate Tracked(nodes: seq<Node?>)
    reads set n: Node | n in nodes
  {
    forall i :: 0 <= i < |nodes| && nodes[i] != null ==> nodes[i].currentIndex == i
  }

  class PriorityQueue<T> {
    const after: (T, T) -> bool
    /** Static queues live in caller memory: they cannot grow and take no nodes. */
    const isStatic: bool
    const capacity: nat
    var container: seq<T>
    var backpointers: Option<seq<Node?>>

    ghost function Nodes(): set<Node>
      reads this
    {
      if backpointers.None? then {} else set n: Node | n in backpointers.value
    }

    /** Lists of equal length, nodes in step with them. */
    ghost predicate Linked()
      reads this, Nodes()
    {
      backpointers.Some? ==> |backpointers.value| == |container| && Tracked(backpointers.value)
    }

    ghost predicate Valid()
      reads this, Nodes()
    {
      Linked() && OrderOn(after, multiset(container)) && Heap(after, container)
    }

    /** The queue's contents: which items it holds, each with its node. */
    ghost function Pairs(): multiset<(T, Node?)>
      requires Linked()
      reads this, Nodes()
    {
      multiset(Zip(container, backpointers))
    }

    constructor (after: (T, T) -> bool, isStatic: bool, capacity: nat)
      ensures Valid() && container == [] && Nodes() == {} && this.after == after && this.isStatic == isStatic
    {
      this.after, this.isStatic, this.capacity := after, isStatic, capacity;
      container, backpointers := [], None;
    }

    /** s_swap. */
    method Swap(a: nat, b: nat)
      requires Linked() && a < |container| && b < |container|
      modifies this`container, this`backpointers, Nodes()
      ensures Linked() && container == Swapped(old(container), a, b)
      ensures backpointers == SwapBack(old(backpointers), a, b)
      ensures Nodes() == old(Nodes()) && Pairs() == old(Pairs())
    {
      hide Zip;
      SwapZip(container, backpointers, a, b);
      container := Swapped(container, a, b);
      if backpointers.Some? {
        SameMembers(backpointers.value, a, b);
        var nodes := Swapped(backpointers.value, a, b);
        backpointers := Some(nodes);
        if nodes[a] != null {
          nodes[a].currentIndex := a;
        }
        if nodes[b] != null {
          nodes[b].currentIndex := b;
        }
      }
    }

    /** s_sift_down: the heap order is broken at most below root. */
    method SiftDown(root: nat) returns (moved: bool)
      requires Linked() && OrderOn(after, multiset(container)) && root < |container|
      requires HeapBut(after, container, root) && BelowParent(after, container, root)
      modifies this`container, this`backpointers, Nodes()
      ensures Valid() && Nodes() == old(Nodes()) && Pairs() == old(Pairs())
      ensures multiset(container) == old(multiset(container))
      ensures !moved ==> container == old(container)
    {
      hide OrderOn, HeapBut, AboveChildren, BelowParent, Zip, Heap, Tracked;
      var k: nat := root;
      moved := false;
      while LeftOf(k) < |container|
        invariant k < |container|
        invariant Linked() && Nodes() == old(Nodes()) && Pairs() == old(Pairs())
        invariant multiset(container) == old(multiset(container))
        invariant HeapBut(after, container, k) && BelowParent(after, container, k)
        invariant !moved ==> container == old(container)
        decreases |container| - k
      {
        var left, right, first := LeftOf(k), RightOf(k), k;
        if after(container[first], container[left]) {
          first := left;
        }
        if right < |container| && after(container[first], container[right]) {
          first := right;
        }
        FirstChild(after, container, k, first);
        if first == k {
          HeapIff(after, container, k);
          return;
        }
        SwapDown(after, container, k, first);
        SwappedBag(container, first, k);
        Swap(first, k);
        moved := true;
        k := first;
      }
      NoChildren(after, container, k);
      HeapIff(after, container, k);
    }

    /** s_sift_up: the heap order is broken at most at index. */
    method SiftUp(index: nat) returns (moved: bool)
      requires Linked() && OrderOn(after, multiset(container)) && index < |container|
      requires HeapBut(after, container, index)
      modifies this`container, this`backpointers, Nodes()
      ensures Linked() && Nodes() == old(Nodes()) && Pairs() == old(Pairs())
      ensures multiset(container) == old(multiset(container))
      ensures moved ==> Heap(after, container)
      ensures !moved ==> container == old(container) && BelowParent(after, container, index)
    {
      hide OrderOn, HeapBut, AboveChildren, Zip, Heap, Tracked;
      var k: nat := index;
      moved := false;
      while k > 0
        invariant k < |container|
        invariant Linked() && Nodes() == old(Nodes()) && Pairs() == old(Pairs())
        invariant multiset(container) == old(multiset(container))
        invariant HeapBut(after, container, k)
        invariant if moved then AboveChildren(after, container, k) else k == index && container == old(container)
      {
        var parent := Parent(k);
        if !after(container[parent], container[k]) {
          HeapIff(after, container, k);
          return;
        }
        SwapUp(after, container, k);
        SwappedBag(container, k, parent);
        Swap(k, parent);
        moved := true;
        k := parent;
      }
      HeapIff(after, container, k);
    }

    /** s_sift_either. */
    method SiftEither(index: nat)
      requires Linked() && OrderOn(after, multiset(container)) && index < |container|
      requires HeapBut(after, container, index)
      modifies this`container, this`backpointers, Nodes()
      ensures Valid() && Nodes() == old(Nodes()) && Pairs() == old(Pairs())
      ensures multiset(container) == old(multiset(container))
    {
      hide OrderOn, HeapBut, Zip, Heap, Tracked;
      var moved := false;
      if index != 0 {
        moved := SiftUp(index);
      }
      if !moved {
        var _ := SiftDown(index);
      }
    }

    /** aws_priority_queue_push_ref up to the sift: item and node go to the end, or nothing changes. */
    method Append(item: T, node: Node?, containerGrows: bool, backGrows: bool) returns (ok: bool)
      requires Linked() && (node != null ==> node !in Nodes())
      modifies this`container, this`backpointers, node
      ensures Linked()
      ensures ok ==> container == old(container) + [item]
      ensures ok ==> Zip(container, backpointers) == old(Zip(container, backpointers)) + [(item, node)]
      ensures ok ==> Nodes() == old(Nodes()) + (if node == null then {} else {node})
      ensures !ok ==> container == old(container) && backpointers == old(backpointers)
      ensures !ok && node != null ==> node.currentIndex == old(node.currentIndex)
      ensures ok <==> && (if isStatic then |old(container)| < capacity else containerGrows)
                      && (node != null && old(backpointers).None? ==> !isStatic && backGrows)
                      && (old(backpointers).Some? ==> backGrows)
    {
      hide Zip;
      PushZip(container, backpointers, item, node);
      if if isStatic then |container| >= capacity else !containerGrows {
        return false;
      }
      container := container + [item];
      var index := |container| - 1;
      var roomMade := false;
      if node != null && backpointers.None? {
        if isStatic || !backGrows {
          container := container[..|container| - 1];
          assert container == old(container);
          return false;
        }
        backpointers := Some(seq(index, _ => null));
        roomMade := true;
      }
      if backpointers.Some? {
        if !roomMade && !backGrows {
          container := container[..|container| - 1];
          assert container == old(container);
          return false;
        }
        backpointers := Some(backpointers.value + [node]);
      }
      if node != null {
        node.currentIndex := index;
      }
      ok := true;
    }

    /** aws_priority_queue_push_ref; the flags say whether growing each list succeeds. */
    method PushRef(item: T, node: Node?, containerGrows: bool, backGrows: bool) returns (ok: bool)
      requires Valid() && OrderOn(after, multiset(container) + multiset{item})
      requires node != null ==> node !in Nodes()
      modifies this`container, this`backpointers, Nodes(), node
      ensures Valid()
      ensures ok ==> Pairs() == old(Pairs()) + multiset{(item, node)}
      ensures ok ==> Nodes() == old(Nodes()) + (if node == null then {} else {node})
      ensures ok ==> multiset(container) == old(multiset(container)) + multiset{item}
      ensures !ok ==> container == old(container) && backpointers == old(backpointers)
      ensures !ok && node != null ==> node.currentIndex == old(node.currentIndex)
      ensures ok <==> && (if isStatic then |old(container)| < capacity else containerGrows)
                      && (node != null && old(backpointers).None? ==> !isStatic && backGrows)
                      && (old(backpointers).Some? ==> backGrows)
    {
      hide OrderOn, Zip, Heap, HeapBut, Tracked, AboveChildren, BelowParent;
      ok := Append(item, node, containerGrows, backGrows);
      if ok {
        PushKeepsBut(after, old(container), item);
        var moved := SiftUp(|container| - 1);
        HeapIff(after, container, |container| - 1);
      }
    }

    /** The two pop_backs of s_remove_node. */
    method PopLast(ghost node: Node?)
      requires Linked() && |container| > 0
      requires node == if backpointers.None? then null else backpointers.value[|container| - 1]
      modifies this`container, this`backpointers, Nodes()
      ensures Linked() && container == old(container)[..|old(container)| - 1]
      ensures backpointers == DropLast(old(backpointers))
      ensures node != null ==> node.currentIndex == SIZE_MAX && node !in Nodes()
      ensures Nodes() == old(Nodes()) - {node}
    {
      var last := |container| - 1;
      container := container[..last];
      if backpointers.Some? {
        var nodes := backpointers.value;
        if nodes[last] != null {
          nodes[last].currentIndex := SIZE_MAX;
        }
        assert nodes == nodes[..last] + [nodes[last]];
        assert forall n :: n in nodes <==> n in nodes[..last] || n == nodes[last];
        backpointers := Some(nodes[..last]);
      }
    }

    /** s_remove_node up to the sift: the last item takes the place of the removed one. */
    method TakeOut(index: nat) returns (item: T, ghost node: Node?)
      requires Linked() && index < |container|
      modifies this`container, this`backpointers, Nodes()
      ensures Linked() && item == old(container[index])
      ensures container == Swapped(old(container), index, |old(container)| - 1)[..|old(container)| - 1]
      ensures node == old(Zip(container, backpointers)[index].1)
      ensures Pairs() == old(Pairs()) - multiset{(item, node)}
      ensures node != null ==> node.currentIndex == SIZE_MAX && node !in Nodes()
      ensures Nodes() == old(Nodes()) - {node}
    {
      hide Zip, Tracked;
      ghost var c, back := container, backpointers;
      item := container[index];
      node := Zip(container, backpointers)[index].1;
      TakeZip(container, backpointers, index);
      SwapSelf(container, backpointers, index);
      assert Zip(c, back)[index] == (item, node);
      var last := |container| - 1;
      if index != last {
        Swap(index, last);
      }
      PopLast(node);
      assert backpointers == DropLast(SwapBack(back, index, last));
    }

    /** s_remove_node. */
    method RemoveNode(index: nat) returns (item: T, ghost node: Node?)
      requires Valid() && index < |container|
      modifies this`container, this`backpointers, Nodes()
      ensures Valid() && item == old(container[index])
      ensures node == old(Zip(container, backpointers)[index].1)
      ensures Pairs() == old(Pairs()) - multiset{(item, node)}
      ensures node != null ==> node.currentIndex == SIZE_MAX && node !in Nodes()
      ensures Nodes() == old(Nodes()) - {node}
      ensures multiset(container) == old(multiset(container)) - multiset{item}
    {
      hide OrderOn, Zip, Heap, HeapBut, Tracked, Swapped, Pairs;
      ghost var c := container;
      RemoveBag(c, index);
      item, node := TakeOut(index);
      SubOrder(after, multiset(c), multiset(container));
      if index < |container| {
        RemoveKeepsBut(after, c, index);
        SiftEither(index);
      } else {
        PopKeepsHeap(after, c);
        assert container == c[..|c| - 1];
      }
    }

    /**
      aws_priority_queue_remove: the item at the index the node names. For a node
      of this queue that is its own item; a stale node takes out whatever is there.
     */
    method Remove(node: Node) returns (item: Option<T>, ghost owner: Node?)
      requires Valid()
      modifies this`container, this`backpointers, Nodes()
      ensures Valid()
      ensures item.Some? <==> old(node.currentIndex) < |old(container)| && old(backpointers).Some?
      ensures item.None? ==> container == old(container) && backpointers == old(backpointers) && node !in old(Nodes())
      ensures item.Some? ==> item.value == old(container)[old(node.currentIndex)] && (item.value, owner) in old(Pairs())
      ensures item.Some? ==> Pairs() == old(Pairs()) - multiset{(item.value, owner)} && Nodes() == old(Nodes()) - {owner}
      ensures item.Some? ==> multiset(container) == old(multiset(container)) - multiset{item.value}
      ensures item.Some? && owner != null ==> owner.currentIndex == SIZE_MAX
      ensures node in old(Nodes()) ==> item.Some? && owner == node
    {
      owner := null;
      if node.currentIndex >= |container| || backpointers.None? {
        return None, null;
      }
      ghost var z := Zip(container, backpointers);
      assert node in Nodes() ==> backpointers.value[node.currentIndex] == node;
      assert z[node.currentIndex] in multiset(z);
      hide OrderOn, Heap, Zip;
      var found;
      found, owner := RemoveNode(node.currentIndex);
      item := Some(found);
    }

    /** aws_priority_queue_pop: a least item, with its node marked as removed. */
    method Pop() returns (item: Option<T>, ghost node: Node?)
      requires Valid()
      modifies this`container, this`backpointers, Nodes()
      ensures Valid()
      ensures item.None? <==> old(container) == []
      ensures item.None? ==> container == [] && backpointers == old(backpointers)
      ensures item.Some? ==> (item.value, node) in old(Pairs()) && Pairs() == old(Pairs()) - multiset{(item.value, node)}
      ensures item.Some? ==> forall x :: x in old(container) ==> !after(item.value, x)
      ensures item.Some? ==> item.value == old(container)[0]
      ensures item.Some? && node != null ==> node.currentIndex == SIZE_MAX && node !in Nodes()
      ensures item.Some? ==> Nodes() == old(Nodes()) - {node}
      ensures item.Some? ==> multiset(container) == old(multiset(container)) - multiset{item.value}
    {
      node := null;
      if container == [] {
        return None, null;
      }
      ghost var z := Zip(container, backpointers);
      assert z[0] in multiset(z);
      forall i | 0 <= i < |container|
        ensures !after(container[0], container[i])
      {
        RootIsLeast(after, container, i);
      }
      hide OrderOn, Heap, Zip;
      var found;
      found, node := RemoveNode(0);
      item := Some(found);
    }

    /** aws_priority_queue_top. */
    method Top() returns (item: Option<T>)
      requires Valid()
      ensures item == if container == [] then None else Some(container[0])
      ensures item.Some? ==> forall x :: x in container ==> !after(item.value, x)
    {
      if container == [] {
        return None;
      }
      forall i | 0 <= i < |container|
        ensures !after(container[0], container[i])
      {
        RootIsLeast(after, container, i);
      }
      item := Some(container[0]);
    }
  }

  lemma SameMembers<T>(c: seq<T>, a: nat, b: nat)
    requires a < |c| && b < |c|
    ensures forall x :: x in Swapped(c, a, b) <==> x in c
  {
    forall x
      ensures x in Swapped(c, a, b) <==> x in c
    {
      SwappedBag(c, a, b);
      assert x in c <==> x in multiset(c);
      assert x in Swapped(c, a, b) <==> x in multiset(Swapped(c, a, b));
    }
  }

  lemma SwapZip<T>(container: seq<T>, back: Option<seq<Node?>>, a: nat, b: nat)
    requires a < |container| && b < |container| && (back.Some? ==> |back.value| == |container|)
    ensures Zip(Swapped(container, a, b), SwapBack(back, a, b)) == Swapped(Zip(container, back), a, b)
    ensures multiset(Zip(Swapped(container, a, b), SwapBack(back, a, b))) == multiset(Zip(container, back))
  {
    SwappedBag(Zip(container, back), a, b);
    assert Zip(Swapped(container, a, b), SwapBack(back, a, b)) == Swapped(Zip(container, back), a, b);
  }

  lemma NoChildren<T>(after: (T, T) -> bool, c: seq<T>, k: nat)
    requires k < |c| <= LeftOf(k)
    ensures AboveChildren(after, c, k)
  {
  }

  lemma PushZip<T>(container: seq<T>, back: Option<seq<Node?>>, item: T, node: Node?)
    requires back.Some? ==> |back.value| == |container|
    ensures var back' :=
        if back.Some? then Some(back.value + [node])
        else if node != null then Some(seq(|container|, _ => null) + [node])
        else None;
      Zip(container + [item], back') == Zip(container, back) + [(item, node)]
  {
  }

  lemma ZipPrefix<T>(container: seq<T>, back: Option<seq<Node?>>)
    requires 0 < |container| && (back.Some? ==> |back.value| == |container|)
    ensures Zip(container[..|container| - 1], DropLast(back)) == Zip(container, back)[..|container| - 1]
  {
  }

  lemma SwapSelf<T>(container: seq<T>, back: Option<seq<Node?>>, i: nat)
    requires i < |container| && (back.Some? ==> |back.value| == |container|)
    ensures Swapped(container, i, i) == container && SwapBack(back, i, i) == back
  {
    if back.Some? {
      assert Swapped(back.value, i, i) == back.value;
    }
  }

  lemma TakeZip<T>(container: seq<T>, back: Option<seq<Node?>>, i: nat)
    requires i < |container| && (back.Some? ==> |back.value| == |container|)
    ensures var n := |container| - 1;
      && multiset(Zip(Swapped(container, i, n)[..n], DropLast(SwapBack(back, i, n))))
         == multiset(Zip(container, back)) - multiset{Zip(container, back)[i]}
  {
    hide Zip, Swapped;
    var n := |container| - 1;
    SwapZip(container, back, i, n);
    ZipPrefix(Swapped(container, i, n), SwapBack(back, i, n));
    RemoveBag(Zip(container, back), i);
  }

  lemma RemoveBag<T>(c: seq<T>, i: nat)
    requires i < |c|
    ensures multiset(Swapped(c, i, |c| - 1)[..|c| - 1]) == multiset(c) - multiset{c[i]}
    ensures i == |c| - 1 ==> Swapped(c, i, i) == c
  {
    SwappedBag(c, i, |c| - 1);
    var r := Swapped(c, i, |c| - 1);
    assert r == r[..|c| - 1] + [c[i]];
  }

  lemma SubOrder<T>(after: (T, T) -> bool, m: multiset<T>, m': multiset<T>)
    requires OrderOn(after, m) && m' <= m
    ensures OrderOn(after, m')
  {
  }
}
