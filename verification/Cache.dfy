/**
  The bounded caches of source/lru_cache.c, source/fifo_cache.c and
  source/lifo_cache.c over the linked hash table. Each operation is the step
  of the ordered map with the same name, and no value is lost or destroyed twice.
 */
module Caches {
  import opened Options
  import opened Sequences
  import opened RobinHood
  import opened EntryMaps
  import opened HashTables
  import opened Items = OrderedMaps
  import opened LinkedHashTables

  class Cache {
    const policy: Policy
    const maxItems: nat
    const lht: LinkedHashTable

    ghost predicate Valid()
      reads this, lht, lht.table, lht.table.slots
    {
      lht.Valid() && 1 <= maxItems && |lht.items| <= maxItems
    }

    /** aws_cache_new_lru, aws_cache_new_fifo and aws_cache_new_lifo. */
    constructor (policy: Policy, cb: Callbacks, maxItems: nat)
      requires Lawful(cb) && maxItems >= 1 && SizeFor(maxItems).Some?
      ensures Valid() && fresh(lht) && fresh(lht.table) && fresh(lht.table.slots)
      ensures this.policy == policy && this.maxItems == maxItems && lht.table.cb == cb && lht.items == []
    {
      this.policy, this.maxItems := policy, maxItems;
      lht := new LinkedHashTable(cb, maxItems);
    }

    /** s_lru_cache_put, s_fifo_cache_put and s_lifo_cache_put. */
    method Put(key: Ptr, value: Ptr, address: Ptr) returns (ok: bool, destroyed: seq<Ptr>)
      requires Valid() && address != NULL && address !in lht.nodes
      modifies lht, lht.table, lht.table.slots
      ensures Valid() && (lht.table.slots == old(lht.table.slots) || fresh(lht.table.slots))
      ensures ok ==> lht.items == CachePut(lht.table.cb, policy, maxItems, old(lht.items), key, value)
      ensures ok ==> multiset(destroyed) + Values(lht.items) == Values(old(lht.items)) + multiset{value}
      ensures !ok ==> lht.items == old(lht.items) && destroyed == []
      ensures !ok <==> !Has(lht.table.cb, old(lht.items), key) && old(lht.table.entryCount) == old(lht.table.maxLoad)
                       && SizeFor(2 * old(lht.table.slots.Length)).None?
    {
      hide HashTable.Valid, LinkedHashTable.Valid, Values, KeyEq, SizeFor, Items.Put, Displaced;
      PutValues(lht.table.cb, lht.items, key, value);
      ok, destroyed := lht.Put(key, value, address);
      if !ok {
        return;
      }
      var count := lht.GetElementCount();
      if count > maxItems {
        var gone := Evict();
        destroyed := destroyed + gone;
      }
    }

    /** The overflow branch of the three puts: removal by the key of the chosen list node. */
    method Evict() returns (gone: seq<Ptr>)
      requires lht.Valid() && |lht.items| >= 2
      modifies lht, lht.table`entryCount, lht.table.slots
      ensures lht.Valid() && lht.items == Without(old(lht.items), Victim(policy, |old(lht.items)|))
      ensures multiset(gone) + Values(lht.items) == Values(old(lht.items))
    {
      hide HashTable.Valid, LinkedHashTable.Valid, Values, Lawful, KeyEq, Chain, Distinct, Items.Find, Without;
      LinkedFacts(lht);
      ghost var items, v := lht.items, Victim(policy, |lht.items|);
      var node := if policy == Lifo then lht.list[|lht.list| - 2] else lht.list[0];
      ChainAt(lht.nodes, lht.list, items, v);
      FindOwn(lht.table.cb, items, v);
      ValuesWithout(items, v);
      gone := lht.Remove(lht.nodes[node].key);
    }

    /** s_lru_cache_find, and aws_cache_base_default_find for the other two. */
    method Find(key: Ptr) returns (value: Option<Ptr>)
      requires Valid()
      modifies lht
      ensures Valid()
      ensures lht.items == CacheFind(lht.table.cb, policy, old(lht.items), key)
      ensures value == Lookup(lht.table.cb, old(lht.items), key)
    {
      hide LinkedHashTable.Valid, KeyEq;
      if policy == Lru {
        value := lht.FindAndMoveToBack(key);
      } else {
        value := lht.Find(key);
      }
    }

    /** s_lru_cache_use_lru_element. */
    method UseLruElement() returns (value: Option<Ptr>)
      requires Valid() && policy == Lru
      modifies lht
      ensures Valid()
      ensures lht.items == Step(lht.table.cb, policy, maxItems, old(lht.items), UseLruOp)
      ensures value == if old(lht.items) == [] then None else Some(old(lht.items)[0].value)
    {
      hide LinkedHashTable.Valid, Chain, KeyEq;
      LinkedFacts(lht);
      if lht.list == [] {
        return None;
      }
      ChainAt(lht.nodes, lht.list, lht.items, 0);
      value := Some(lht.nodes[lht.list[0]].value);
      lht.MoveNodeToEnd(lht.list[0], 0);
    }

    /** s_lru_cache_get_mru_element: the value used last. */
    method GetMruElement() returns (value: Option<Ptr>)
      requires Valid()
      ensures value == if lht.items == [] then None else Some(lht.items[|lht.items| - 1].value)
    {
      hide LinkedHashTable.Valid, Chain;
      LinkedFacts(lht);
      if lht.list == [] {
        return None;
      }
      ChainAt(lht.nodes, lht.list, lht.items, |lht.list| - 1);
      value := Some(lht.nodes[lht.list[|lht.list| - 1]].value);
    }

    method Remove(key: Ptr) returns (destroyed: seq<Ptr>)
      requires Valid()
      modifies lht, lht.table`entryCount, lht.table.slots
      ensures Valid()
      ensures lht.items == Step(lht.table.cb, policy, maxItems, old(lht.items), RemoveOp(key))
      ensures multiset(destroyed) + Values(lht.items) == Values(old(lht.items))
    {
      hide HashTable.Valid, LinkedHashTable.Valid, Values, Lawful, KeyEq;
      var i := Items.Find(lht.table.cb, lht.items, key);
      if i < |lht.items| {
        ValuesWithout(lht.items, i);
      }
      destroyed := lht.Remove(key);
    }

    method Clear() returns (destroyed: seq<Ptr>)
      requires Valid()
      modifies lht, lht.table`entryCount, lht.table.slots
      ensures Valid() && lht.items == []
      ensures multiset(destroyed) == Values(old(lht.items))
    {
      hide LinkedHashTable.Valid;
      destroyed := lht.Clear();
    }
  }

  lemma LinkedFacts(t: LinkedHashTable)
    requires t.Valid()
    ensures Chain(t.nodes, t.list, t.items) && |t.list| == |t.items|
    ensures Lawful(t.table.cb) && Distinct(t.table.cb, t.items)
  {
  }

  /** A put adds its value and displaces the one it replaces. */
  lemma PutValues(cb: Callbacks, items: seq<Item>, key: Ptr, value: Ptr)
    ensures multiset(Displaced(cb, items, key)) + Values(Items.Put(cb, items, key, value))
            == Values(items) + multiset{value}
    ensures |Items.Put(cb, items, key, value)| <= |items| + 1
  {
    var i, r := Items.Find(cb, items, key), Items.Put(cb, items, key, value);
    ValuesWithout(r, |r| - 1);
    if i < |items| {
      ValuesWithout(items, i);
      assert Without(r, |r| - 1) == Without(items, i);
    } else {
      assert Without(r, |r| - 1) == items;
    }
  }

  /** aws_cache_new_lru, aws_cache_new_fifo and aws_cache_new_lifo: no cache when the table's size is not representable. */
  method NewCache(policy: Policy, cb: Callbacks, maxItems: nat) returns (cache: Cache?)
    requires Lawful(cb) && maxItems >= 1
    ensures cache == null <==> SizeFor(maxItems).None?
    ensures cache != null ==> cache.Valid() && fresh(cache) && fresh(cache.lht) && fresh(cache.lht.table) && fresh(cache.lht.table.slots)
    ensures cache != null ==> cache.policy == policy && cache.maxItems == maxItems && cache.lht.table.cb == cb && cache.lht.items == []
  {
    cache := null;
    if SizeFor(maxItems).Some? {
      cache := new Cache(policy, cb, maxItems);
    }
  }
}
