/**
  The linked hash table of source/linked_hash_table.c. The table maps a key to
  the address of a list node; nodes are unlinked from inside table removal.
 */
module LinkedHashTables {
  import opened Options
  import opened Sequences
  import opened RobinHood
  import opened EntryMaps
  import opened HashTables
  import opened HashIteration
  import opened Items = OrderedMaps

  /** An allocated list node. */
  datatype Node = Node(key: Ptr, value: Ptr)

  /** The list threads exactly the allocated nodes, and item i describes the i-th of them. */
  ghost predicate Chain(nodes: map<Ptr, Node>, list: seq<Ptr>, items: seq<Item>) {
    && |list| == |items| && NoDup(list) && NULL !in list
    && (forall a :: a in nodes <==> a in list)
    && (forall i :: 0 <= i < |list| ==> nodes[list[i]] == Node(items[i].nodeKey, items[i].value))
  }

  function EntryOf(cb: Callbacks, list: seq<Ptr>, items: seq<Item>, i: nat): Entry
    requires i < |list| == |items|
  {
    Entry(items[i].tableKey, list[i], HashFor(cb, items[i].tableKey))
  }

  /** The table's entries are, one for one, those of the listed nodes. */
  ghost predicate Bound(cb: Callbacks, m: set<Entry>, list: seq<Ptr>, items: seq<Item>) {
    && |list| == |items|
    && (forall i :: 0 <= i < |list| ==> EntryOf(cb, list, items, i) in m)
    && (forall e :: e in m ==> exists i :: 0 <= i < |list| && EntryOf(cb, list, items, i) == e)
    && Distinct(cb, items)
  }

  ghost predicate Linked(cb: Callbacks, m: set<Entry>, nodes: map<Ptr, Node>, list: seq<Ptr>, items: seq<Item>) {
    Chain(nodes, list, items) && Bound(cb, m, list, items)
  }

  /** The node of a table entry, by its place in the list. */
  lemma PlaceOf(cb: Callbacks, m: set<Entry>, list: seq<Ptr>, items: seq<Item>, e: Entry, key: Ptr) returns (i: nat)
    requires Lawful(cb) && Bound(cb, m, list, items) && e in m && KeyEq(cb, key, e.key)
    ensures i < |list| && EntryOf(cb, list, items, i) == e && Items.Find(cb, items, key) == i
  {
    i :| 0 <= i < |list| && EntryOf(cb, list, items, i) == e;
    hide Lawful, KeyEq;
    OthersApart(cb, items, key, i);
  }

  lemma NoPlace(cb: Callbacks, m: set<Entry>, list: seq<Ptr>, items: seq<Item>, key: Ptr)
    requires Bound(cb, m, list, items) && !HasKey(cb, m, key)
    ensures Items.Find(cb, items, key) == |items|
  {
    var i := Items.Find(cb, items, key);
    assert i < |items| ==> EntryOf(cb, list, items, i) in m;
  }

  lemma {:induction false} AddressIndex(list: seq<Ptr>, a: Ptr) returns (i: nat)
    requires a in list
    ensures i < |list| && list[i] == a
  {
    i :| 0 <= i < |list| && list[i] == a;
  }

  lemma ChainAt(nodes: map<Ptr, Node>, list: seq<Ptr>, items: seq<Item>, i: nat)
    requires Chain(nodes, list, items) && i < |list|
    ensures |list| == |items| && list[i] in nodes && list[i] != NULL
    ensures nodes[list[i]] == Node(items[i].nodeKey, items[i].value)
  {
    assert list[i] in list;
  }

  lemma WithoutMembers(list: seq<Ptr>, i: nat, a: Ptr)
    requires NoDup(list) && i < |list|
    ensures a in Without(list, i) <==> a in list && a != list[i]
  {
    var l := Without(list, i);
    if a in list && a != list[i] {
      var j := AddressIndex(list, a);
      assert l[if j < i then j else j - 1] == a;
    }
  }

  lemma ChainRemove(nodes: map<Ptr, Node>, list: seq<Ptr>, items: seq<Item>, i: nat)
    requires Chain(nodes, list, items) && i < |list|
    ensures Chain(nodes - {list[i]}, Without(list, i), Without(items, i))
  {
    var l := Without(list, i);
    forall a
      ensures a in nodes - {list[i]} <==> a in l
    {
      WithoutMembers(list, i, a);
    }
  }

  lemma ChainAppend(nodes: map<Ptr, Node>, list: seq<Ptr>, items: seq<Item>, a: Ptr, item: Item)
    requires Chain(nodes, list, items) && a !in nodes && a != NULL
    ensures Chain(nodes[a := Node(item.nodeKey, item.value)], list + [a], items + [item])
  {
  }

  lemma ChainMove(nodes: map<Ptr, Node>, list: seq<Ptr>, items: seq<Item>, i: nat)
    requires Chain(nodes, list, items) && i < |list|
    ensures Chain(nodes, MoveToBack(list, i), MoveToBack(items, i))
  {
    ChainRemove(nodes, list, items, i);
    ChainAppend(nodes - {list[i]}, Without(list, i), Without(items, i), list[i], items[i]);
    assert (nodes - {list[i]})[list[i] := Node(items[i].nodeKey, items[i].value)] == nodes;
  }

  lemma WithoutAt<T>(s: seq<T>, i: nat, j: nat)
    requires i < |s| && j < |s| - 1
    ensures |Without(s, i)| == |s| - 1 && Without(s, i)[j] == s[if j < i then j else j + 1]
  {
  }

  lemma BoundRemove(cb: Callbacks, m: set<Entry>, list: seq<Ptr>, items: seq<Item>, i: nat)
    requires Bound(cb, m, list, items) && NoDup(list) && i < |list|
    ensures Bound(cb, m - {EntryOf(cb, list, items, i)}, Without(list, i), Without(items, i))
  {
    hide Distinct, HashFor;
    var l, its, e := Without(list, i), Without(items, i), EntryOf(cb, list, items, i);
    WithoutKeepsDistinct(cb, items, i);
    forall j | 0 <= j < |l|
      ensures EntryOf(cb, l, its, j) in m - {e}
    {
      WithoutAt(list, i, j);
      WithoutAt(items, i, j);
      assert EntryOf(cb, l, its, j) == EntryOf(cb, list, items, if j < i then j else j + 1);
    }
    forall f | f in m - {e}
      ensures exists j :: 0 <= j < |l| && EntryOf(cb, l, its, j) == f
    {
      var k :| 0 <= k < |list| && EntryOf(cb, list, items, k) == f;
      var j := if k < i then k else k - 1;
      assert EntryOf(cb, l, its, j) == f;
    }
  }

  lemma BoundAppend(cb: Callbacks, m: set<Entry>, list: seq<Ptr>, items: seq<Item>, a: Ptr, item: Item)
    requires Lawful(cb) && Bound(cb, m, list, items) && KeyEq(cb, item.nodeKey, item.tableKey)
    requires forall j :: 0 <= j < |items| ==> !KeyEq(cb, item.tableKey, items[j].tableKey)
    ensures Bound(cb, m + {Entry(item.tableKey, a, HashFor(cb, item.tableKey))}, list + [a], items + [item])
  {
    var l, its := list + [a], items + [item];
    AppendKeepsDistinct(cb, items, item);
    hide Distinct, Lawful, KeyEq;
    forall j | 0 <= j < |list|
      ensures EntryOf(cb, l, its, j) == EntryOf(cb, list, items, j)
    {
    }
    assert EntryOf(cb, l, its, |list|) == Entry(item.tableKey, a, HashFor(cb, item.tableKey));
  }

  /** What Bound says of one place. */
  lemma BoundAt(cb: Callbacks, m: set<Entry>, list: seq<Ptr>, items: seq<Item>, i: nat)
    requires Lawful(cb) && Bound(cb, m, list, items) && i < |list|
    ensures |list| == |items| && EntryOf(cb, list, items, i) in m && Distinct(cb, items)
    ensures KeyEq(cb, items[i].nodeKey, items[i].tableKey) && KeyEq(cb, items[i].tableKey, items[i].tableKey)
  {
    KeyEqIsEquivalence(cb, items[i].tableKey, items[i].tableKey, NULL);
  }

  lemma BoundMove(cb: Callbacks, m: set<Entry>, list: seq<Ptr>, items: seq<Item>, i: nat)
    requires Lawful(cb) && Bound(cb, m, list, items) && NoDup(list) && i < |list|
    ensures Bound(cb, m, MoveToBack(list, i), MoveToBack(items, i))
  {
    hide Lawful, KeyEq, Bound, Distinct, NoDup, HashFor;
    BoundAt(cb, m, list, items, i);
    OthersApart(cb, items, items[i].tableKey, i);
    BoundRemove(cb, m, list, items, i);
    var e := EntryOf(cb, list, items, i);
    BoundAppend(cb, m - {e}, Without(list, i), Without(items, i), list[i], items[i]);
    assert m - {e} + {e} == m;
  }

  lemma LinkedMove(cb: Callbacks, m: set<Entry>, nodes: map<Ptr, Node>, list: seq<Ptr>, items: seq<Item>, i: nat)
    requires Lawful(cb) && Linked(cb, m, nodes, list, items) && i < |list|
    ensures Linked(cb, m, nodes, MoveToBack(list, i), MoveToBack(items, i))
  {
    hide Lawful, KeyEq, Bound;
    ChainMove(nodes, list, items, i);
    BoundMove(cb, m, list, items, i);
  }

  /** As many items as table entries. */
  lemma {:induction false} BoundCount(cb: Callbacks, m: set<Entry>, list: seq<Ptr>, items: seq<Item>)
    requires Bound(cb, m, list, items) && NoDup(list)
    ensures |m| == |items|
    decreases |list|
  {
    if |list| == 0 {
      assert m == {};
    } else {
      var i := |list| - 1;
      assert EntryOf(cb, list, items, i) in m;
      BoundRemove(cb, m, list, items, i);
      BoundCount(cb, m - {EntryOf(cb, list, items, i)}, Without(list, i), Without(items, i));
    }
  }

  ghost function Values(items: seq<Item>): multiset<Ptr> {
    multiset(seq(|items|, i requires 0 <= i < |items| => items[i].value))
  }

  /** The values handed to the value destructor when the item under a key goes. */
  function Displaced(cb: Callbacks, items: seq<Item>, key: Ptr): seq<Ptr> {
    var i := Items.Find(cb, items, key);
    if i < |items| then [items[i].value] else []
  }

  class LinkedHashTable {
    const table: HashTable
    var nodes: map<Ptr, Node>
    var list: seq<Ptr>
    ghost var items: seq<Item>

    ghost predicate Valid()
      reads this, table, table.slots
    {
      table.Valid() && Linked(table.cb, table.Contents(), nodes, list, items)
    }

    /** aws_linked_hash_table_init. */
    constructor (cb: Callbacks, initial: nat)
      requires Lawful(cb) && SizeFor(initial).Some?
      ensures Valid() && fresh(table) && fresh(table.slots) && table.cb == cb && items == []
    {
      table := new HashTable(cb, initial);
      nodes, list, items := map[], [], [];
    }

    lemma Facts()
      requires Valid()
      ensures table.Valid() && Lawful(table.cb) && NoDup(list) && |list| == |items|
    {
    }

    /** s_element_destroy: reports the value to destroy, unlinks the node and frees it. */
    method ElementDestroy(address: Ptr, ghost i: nat) returns (value: Ptr)
      requires Chain(nodes, list, items) && i < |list| && list[i] == address
      modifies this
      ensures Chain(nodes, list, items)
      ensures nodes == old(nodes) - {address} && list == Without(old(list), i) && items == Without(old(items), i)
      ensures value == old(items)[i].value
    {
      value := nodes[address].value;
      var j: nat :| j < |list| && list[j] == address;
      assert j == i;
      ChainRemove(nodes, list, items, i);
      list := Without(list, j);
      nodes := nodes - {address};
      items := Without(items, i);
    }

    /** aws_linked_hash_table_find. */
    method Find(key: Ptr) returns (value: Option<Ptr>)
      requires Valid()
      ensures value == Lookup(table.cb, items, key)
    {
      hide HashTable.Valid, Lawful, KeyEq, Chain, Bound;
      Facts();
      var slot := table.Find(key);
      if slot.None? {
        NoPlace(table.cb, table.Contents(), list, items, key);
        return None;
      }
      ghost var i := PlaceOf(table.cb, table.Contents(), list, items, table.slots[slot.value], key);
      ChainAt(nodes, list, items, i);
      value := Some(nodes[table.slots[slot.value].value].value);
    }

    /** aws_linked_hash_table_move_node_to_end_of_list. */
    method MoveNodeToEnd(address: Ptr, ghost i: nat)
      requires Valid() && i < |list| && list[i] == address
      modifies this
      ensures Valid() && items == MoveToBack(old(items), i)
    {
      hide HashTable.Valid, Lawful, KeyEq, Bound;
      Facts();
      LinkedMove(table.cb, table.Contents(), nodes, list, items, i);
      var j: nat :| j < |list| && list[j] == address;
      assert j == i;
      list := MoveToBack(list, j);
      items := MoveToBack(items, i);
    }

    /** aws_linked_hash_table_find_and_move_to_back. */
    method FindAndMoveToBack(key: Ptr) returns (value: Option<Ptr>)
      requires Valid()
      modifies this
      ensures Valid()
      ensures value == Lookup(table.cb, old(items), key) && items == Touch(table.cb, old(items), key)
    {
      hide HashTable.Valid, Lawful, KeyEq, Chain, Bound;
      Facts();
      var slot := table.Find(key);
      if slot.None? {
        NoPlace(table.cb, table.Contents(), list, items, key);
        return None;
      }
      var address := table.slots[slot.value].value;
      ghost var i := PlaceOf(table.cb, table.Contents(), list, items, table.slots[slot.value], key);
      ChainAt(nodes, list, items, i);
      value := Some(nodes[address].value);
      MoveNodeToEnd(address, i);
    }

    /** aws_linked_hash_table_put: the new node is allocated at the given address. */
    method Put(key: Ptr, value: Ptr, address: Ptr) returns (ok: bool, destroyed: seq<Ptr>)
      requires Valid() && address != NULL && address !in nodes
      modifies this, table, table.slots
      ensures Valid() && (table.slots == old(table.slots) || fresh(table.slots))
      ensures ok ==> items == Items.Put(table.cb, old(items), key, value)
      ensures ok ==> destroyed == Displaced(table.cb, old(items), key)
      ensures !ok ==> items == old(items) && destroyed == []
      ensures !ok <==> !Has(table.cb, old(items), key) && old(table.entryCount) == old(table.maxLoad)
                       && SizeFor(2 * old(table.slots.Length)).None?
    {
      hide HashTable.Valid, HashTable.Contents, Lawful, KeyEq, Chain, Bound, SizeFor, HasKey;
      Facts();
      ghost var m, cb := table.Contents(), table.cb;
      var r := table.Create(key);
      destroyed := [];
      if !r.Existing? {
        NoPlace(cb, m, list, items, key);
      }
      if r.Failed? {
        return false, [];
      }
      ghost var e := table.slots[r.slot];
      ghost var i := |items|;
      if r.Existing? {
        i := PlaceOf(cb, m, list, items, e, key);
        ChainAt(nodes, list, items, i);
      }
      ghost var item := Item(e.key, key, value);
      KeyEqIsEquivalence(cb, key, key, key);
      BoundPut(cb, m, list, items, e, i, item, address);
      if table.slots[r.slot].value != NULL {
        var gone := ElementDestroy(table.slots[r.slot].value, i);
        destroyed := [gone];
      }
      ChainAppend(nodes, list, items, address, item);
      nodes := nodes[address := Node(key, value)];
      table.SetValue(r.slot, address);
      list := list + [address];
      items := items + [item];
      ok := true;
    }

    /** aws_linked_hash_table_remove: aws_hash_table_remove, which destroys the node before it removes the entry. */
    method Remove(key: Ptr) returns (destroyed: seq<Ptr>)
      requires Valid()
      modifies this, table`entryCount, table.slots
      ensures Valid()
      ensures items == Items.Remove(table.cb, old(items), key)
      ensures destroyed == Displaced(table.cb, old(items), key)
    {
      hide HashTable.Valid, HashTable.Contents, Lawful, KeyEq, Chain, Bound, HasKey;
      Facts();
      ghost var m, cb := table.Contents(), table.cb;
      var slot := table.Find(key);
      if slot.None? {
        NoPlace(cb, m, list, items, key);
        return [];
      }
      var e := table.slots[slot.value];
      ghost var i := PlaceOf(cb, m, list, items, e, key);
      BoundRemove(cb, m, list, items, i);
      var gone := ElementDestroy(e.value, i);
      table.RemoveElement(slot.value);
      destroyed := [gone];
    }

    /** aws_linked_hash_table_clear: aws_hash_table_clear, which destroys every node before it zeroes the slots. */
    method Clear() returns (destroyed: seq<Ptr>)
      requires Valid()
      modifies this, table`entryCount, table.slots
      ensures Valid() && items == []
      ensures multiset(destroyed) == Values(old(items))
    {
      hide HashTable.Valid, Lawful, KeyEq, Chain, Bound, Window, Values;
      Facts();
      ghost var s, cb := table.slots[..], table.cb;
      WindowIsElements(s);
      destroyed := [];
      for k := 0 to table.slots.Length
        modifies this
        invariant Chain(nodes, list, items) && Bound(cb, Window(s, k, |s|), list, items)
        invariant multiset(destroyed) + Values(items) == Values(old(items))
      {
        assert table.slots[..] == s;
        ClearSlot(table, k);
        if Full(table.slots[k]) {
          ghost var i := BoundPlace(cb, Window(s, k, |s|), list, items, s[k]);
          NoDupOf(nodes, list, items);
          BoundRemove(cb, Window(s, k, |s|), list, items, i);
          ValuesWithout(items, i);
          var gone := ElementDestroy(table.slots[k].value, i);
          destroyed := destroyed + [gone];
        }
      }
      NoDupOf(nodes, list, items);
      WindowEmpty(s, |s|, |s|);
      BoundCount(cb, {}, list, items);
      NoValues();
      var _ := table.Clear();
    }

    /** aws_linked_hash_table_get_element_count. */
    method GetElementCount() returns (count: nat)
      requires Valid()
      ensures count == |items|
    {
      BoundCount(table.cb, table.Contents(), list, items);
      count := table.entryCount;
    }
  }

  /** What the rest of the table holds before and after slot k. */
  lemma ClearSlot(table: HashTable, k: nat)
    requires table.Valid() && k < table.slots.Length
    ensures var s := table.slots[..];
            if Full(s[k]) then s[k] in Window(s, k, |s|) && Window(s, k, |s|) - {s[k]} == Window(s, k + 1, |s|)
            else Window(s, k, |s|) == Window(s, k + 1, |s|)
  {
    var s := table.slots[..];
    hide Lawful, Ordered, IsSize;
    if Full(s[k]) {
      NotInRest(table.cb, s, k, |s|);
    }
    hide BagOk;
  }

  lemma BoundPlace(cb: Callbacks, m: set<Entry>, list: seq<Ptr>, items: seq<Item>, e: Entry) returns (i: nat)
    requires Bound(cb, m, list, items) && e in m
    ensures i < |list| == |items| && EntryOf(cb, list, items, i) == e
  {
    i :| i < |list| && EntryOf(cb, list, items, i) == e;
  }

  lemma NoValues()
    ensures Values([]) == multiset{}
  {
  }

  /** The table after a put: the entry found or created now points to the new node. */
  lemma BoundPut(cb: Callbacks, m: set<Entry>, list: seq<Ptr>, items: seq<Item>, e: Entry, i: nat, item: Item, a: Ptr)
    requires Lawful(cb) && Bound(cb, m, list, items) && NoDup(list)
    requires i <= |items| && item.tableKey == e.key && e.hash == HashFor(cb, e.key)
    requires KeyEq(cb, item.nodeKey, e.key)
    requires if i < |items| then e == EntryOf(cb, list, items, i) else Items.Find(cb, items, e.key) == |items|
    ensures if i < |items|
            then Bound(cb, m - {e} + {e.(value := a)}, Without(list, i) + [a], Without(items, i) + [item])
            else Bound(cb, m + {e} - {e} + {e.(value := a)}, list + [a], items + [item])
  {
    hide Lawful, KeyEq;
    if i < |items| {
      KeyEqIsEquivalence(cb, e.key, e.key, NULL);
      OthersApart(cb, items, e.key, i);
      BoundRemove(cb, m, list, items, i);
      BoundAppend(cb, m - {e}, Without(list, i), Without(items, i), a, item);
    } else {
      BoundAppend(cb, m, list, items, a, item);
      FreshEntry(cb, m, list, items, e);
      assert m + {e} - {e} + {e.(value := a)} == m + {e.(value := a)};
    }
  }

  lemma FreshEntry(cb: Callbacks, m: set<Entry>, list: seq<Ptr>, items: seq<Item>, e: Entry)
    requires Lawful(cb) && Bound(cb, m, list, items) && Items.Find(cb, items, e.key) == |items|
    ensures e !in m
  {
    KeyEqIsEquivalence(cb, e.key, e.key, NULL);
  }

  lemma NoDupOf(nodes: map<Ptr, Node>, list: seq<Ptr>, items: seq<Item>)
    requires Chain(nodes, list, items)
    ensures NoDup(list) && |list| == |items|
  {
  }

  lemma ValuesWithout(items: seq<Item>, i: nat)
    requires i < |items|
    ensures Values(items) == Values(Without(items, i)) + multiset{items[i].value}
  {
    var v := seq(|items|, k requires 0 <= k < |items| => items[k].value);
    var w := Without(items, i);
    assert seq(|w|, k requires 0 <= k < |w| => w[k].value) == Without(v, i);
    BagWithout(v, i);
  }

  /** aws_linked_hash_table_init: an error when the size is not representable. */
  method NewLinkedTable(cb: Callbacks, initial: nat) returns (t: LinkedHashTable?)
    requires Lawful(cb)
    ensures t == null <==> SizeFor(initial).None?
    ensures t != null ==> t.Valid() && fresh(t) && fresh(t.table) && fresh(t.table.slots) && t.table.cb == cb && t.items == []
  {
    t := null;
    if SizeFor(initial).Some? {
      t := new LinkedHashTable(cb, initial);
    }
  }
}
