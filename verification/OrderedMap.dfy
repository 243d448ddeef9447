/**
  The ordered map that a linked hash table stands for, as the sequence of its
  items from front to back, and the three eviction rules on it.
 */
module OrderedMaps {
  import opened Options
  import opened Sequences
  import opened RobinHood
  import opened EntryMaps

  /** An item: the key pointer the table keeps, the one its list node keeps, and the value. */
  datatype Item = Item(tableKey: Ptr, nodeKey: Ptr, value: Ptr)

  /** The position of the item under a key, or the length when there is none. */
  function Find(cb: Callbacks, items: seq<Item>, key: Ptr): (i: nat)
    ensures i <= |items|
    ensures i < |items| ==> KeyEq(cb, key, items[i].tableKey)
    ensures forall j :: 0 <= j < i ==> !KeyEq(cb, key, items[j].tableKey)
  {
    if items == [] then 0
    else if KeyEq(cb, key, items[0].tableKey) then 0
    else 1 + Find(cb, items[1..], key)
  }

  function Has(cb: Callbacks, items: seq<Item>, key: Ptr): bool {
    Find(cb, items, key) < |items|
  }

  /** The value under a key. */
  function Lookup(cb: Callbacks, items: seq<Item>, key: Ptr): Option<Ptr> {
    var i := Find(cb, items, key);
    if i < |items| then Some(items[i].value) else None
  }

  function MoveToBack<T>(s: seq<T>, i: nat): (r: seq<T>)
    requires i < |s|
  {
    Without(s, i) + [s[i]]
  }

  /** A put appends; under a key already present it also drops the old item, but keeps the table's key pointer. */
  function Put(cb: Callbacks, items: seq<Item>, key: Ptr, value: Ptr): (r: seq<Item>) {
    var i := Find(cb, items, key);
    if i < |items| then Without(items, i) + [Item(items[i].tableKey, key, value)]
    else items + [Item(key, key, value)]
  }

  function Remove(cb: Callbacks, items: seq<Item>, key: Ptr): (r: seq<Item>) {
    var i := Find(cb, items, key);
    if i < |items| then Without(items, i) else items
  }

  function Touch(cb: Callbacks, items: seq<Item>, key: Ptr): (r: seq<Item>) {
    var i := Find(cb, items, key);
    if i < |items| then MoveToBack(items, i) else items
  }

  /** No two items have equal keys, and each node key equals its table key. */
  ghost predicate Distinct(cb: Callbacks, items: seq<Item>) {
    && (forall i :: 0 <= i < |items| ==> KeyEq(cb, items[i].nodeKey, items[i].tableKey))
    && (forall i, j :: 0 <= i < j < |items| ==> !KeyEq(cb, items[i].tableKey, items[j].tableKey))
  }

  /** Searching for an item's own node key finds that item. */
  lemma FindOwn(cb: Callbacks, items: seq<Item>, i: nat)
    requires Lawful(cb) && Distinct(cb, items) && i < |items|
    ensures Find(cb, items, items[i].nodeKey) == i
    ensures Find(cb, items, items[i].tableKey) == i
  {
    hide Lawful, KeyEq;
    var a, b := items[i].nodeKey, items[i].tableKey;
    forall j | 0 <= j < |items| && j != i
      ensures !KeyEq(cb, a, items[j].tableKey) && !KeyEq(cb, b, items[j].tableKey)
    {
      KeyEqIsEquivalence(cb, a, b, b);
      KeyEqIsEquivalence(cb, b, a, items[j].tableKey);
      KeyEqIsEquivalence(cb, items[j].tableKey, b, b);
      KeyEqIsEquivalence(cb, b, items[j].tableKey, b);
    }
    KeyEqIsEquivalence(cb, b, b, b);
  }

  /** Among distinct keys, the one equal key decides what is found. */
  lemma LookupAt(cb: Callbacks, items: seq<Item>, i: nat, key: Ptr)
    requires Lawful(cb) && Distinct(cb, items) && i < |items| && KeyEq(cb, key, items[i].tableKey)
    ensures Find(cb, items, key) == i && Lookup(cb, items, key) == Some(items[i].value)
  {
    var j := Find(cb, items, key);
    KeyEqIsEquivalence(cb, key, items[j].tableKey, key);
    KeyEqIsEquivalence(cb, key, items[i].tableKey, key);
    KeyEqIsEquivalence(cb, items[j].tableKey, key, items[i].tableKey);
    KeyEqIsEquivalence(cb, items[i].tableKey, key, items[j].tableKey);
  }

  lemma LookupNone(cb: Callbacks, items: seq<Item>, key: Ptr)
    ensures Lookup(cb, items, key).None? <==> forall j :: 0 <= j < |items| ==> !KeyEq(cb, key, items[j].tableKey)
  {
  }

  /** Dropping an item unbinds its key and no other. */
  lemma LookupWithout(cb: Callbacks, items: seq<Item>, i: nat, key: Ptr)
    requires Lawful(cb) && Distinct(cb, items) && i < |items|
    ensures Lookup(cb, Without(items, i), key) ==
            if KeyEq(cb, key, items[i].tableKey) then None else Lookup(cb, items, key)
  {
    var rest := Without(items, i);
    WithoutKeepsDistinct(cb, items, i);
    if KeyEq(cb, key, items[i].tableKey) {
      OthersApart(cb, items, key, i);
      LookupNone(cb, rest, key);
    } else {
      var j := Find(cb, items, key);
      if j < |items| {
        assert rest[if j < i then j else j - 1] == items[j];
        LookupAt(cb, rest, if j < i then j else j - 1, key);
      } else {
        LookupNone(cb, rest, key);
      }
    }
  }

  /** Appending an item under a new key binds that key and no other. */
  lemma LookupAppend(cb: Callbacks, items: seq<Item>, item: Item, key: Ptr)
    requires Lawful(cb) && Distinct(cb, items) && KeyEq(cb, item.nodeKey, item.tableKey)
    requires forall j :: 0 <= j < |items| ==> !KeyEq(cb, item.tableKey, items[j].tableKey)
    ensures Lookup(cb, items + [item], key) == if KeyEq(cb, key, item.tableKey) then Some(item.value) else Lookup(cb, items, key)
  {
    var more := items + [item];
    AppendKeepsDistinct(cb, items, item);
    var j := Find(cb, items, key);
    if KeyEq(cb, key, item.tableKey) {
      LookupAt(cb, more, |items|, key);
    } else if j < |items| {
      LookupAt(cb, more, j, key);
    } else {
      LookupNone(cb, more, key);
    }
  }

  /** The item under a key dropped and one under that key appended: only that key is rebound. */
  lemma LookupReplace(cb: Callbacks, items: seq<Item>, i: nat, item: Item, k: Ptr)
    requires Lawful(cb) && Distinct(cb, items) && i < |items|
    requires item.tableKey == items[i].tableKey && KeyEq(cb, item.nodeKey, item.tableKey)
    ensures Lookup(cb, Without(items, i) + [item], k) ==
            if KeyEq(cb, k, item.tableKey) then Some(item.value) else Lookup(cb, items, k)
  {
    KeyEqIsEquivalence(cb, items[i].tableKey, items[i].tableKey, items[i].tableKey);
    WithoutKeepsDistinct(cb, items, i);
    OthersApart(cb, items, items[i].tableKey, i);
    LookupAppend(cb, Without(items, i), item, k);
    LookupWithout(cb, items, i, k);
  }

  /** As a map: put rebinds, remove unbinds, and touching changes no binding. */
  lemma LookupLaws(cb: Callbacks, items: seq<Item>, key: Ptr, value: Ptr, k: Ptr)
    requires Lawful(cb) && Distinct(cb, items)
    ensures Lookup(cb, Put(cb, items, key, value), k) == if KeyEq(cb, k, key) then Some(value) else Lookup(cb, items, k)
    ensures Lookup(cb, Remove(cb, items, key), k) == if KeyEq(cb, k, key) then None else Lookup(cb, items, k)
    ensures Lookup(cb, Touch(cb, items, key), k) == Lookup(cb, items, k)
  {
    hide Lawful, KeyEq, Lookup, Find, Distinct, Without;
    var i := Find(cb, items, key);
    if i < |items| {
      SameClass(cb, k, key, items[i].tableKey);
      LookupReplace(cb, items, i, Item(items[i].tableKey, key, value), k);
      DistinctAt(cb, items, i);
      LookupReplace(cb, items, i, items[i], k);
      LookupWithout(cb, items, i, k);
      if KeyEq(cb, k, items[i].tableKey) {
        LookupAt(cb, items, i, k);
      }
    } else {
      KeyEqIsEquivalence(cb, key, key, key);
      LookupAppend(cb, items, Item(key, key, value), k);
      LookupMissing(cb, items, key, k);
    }
  }

  lemma SameClass(cb: Callbacks, k: Ptr, a: Ptr, b: Ptr)
    requires Lawful(cb) && KeyEq(cb, a, b)
    ensures KeyEq(cb, k, a) <==> KeyEq(cb, k, b)
  {
    KeyEqIsEquivalence(cb, k, a, b);
    KeyEqIsEquivalence(cb, a, b, b);
    KeyEqIsEquivalence(cb, k, b, a);
  }

  lemma DistinctAt(cb: Callbacks, items: seq<Item>, i: nat)
    requires Distinct(cb, items) && i < |items|
    ensures KeyEq(cb, items[i].nodeKey, items[i].tableKey)
  {
  }

  /** A key equal to a missing one is missing too. */
  lemma LookupMissing(cb: Callbacks, items: seq<Item>, key: Ptr, k: Ptr)
    requires Lawful(cb) && Find(cb, items, key) == |items|
    ensures KeyEq(cb, k, key) ==> Lookup(cb, items, k) == None
  {
    if KeyEq(cb, k, key) {
      var j := Find(cb, items, k);
      if j < |items| {
        KeyEqIsEquivalence(cb, k, key, k);
        KeyEqIsEquivalence(cb, key, k, items[j].tableKey);
      }
    }
  }

  lemma WithoutKeepsDistinct(cb: Callbacks, items: seq<Item>, i: nat)
    requires Distinct(cb, items) && i < |items|
    ensures Distinct(cb, Without(items, i))
  {
  }

  lemma AppendKeepsDistinct(cb: Callbacks, items: seq<Item>, item: Item)
    requires Lawful(cb) && Distinct(cb, items) && KeyEq(cb, item.nodeKey, item.tableKey)
    requires forall j :: 0 <= j < |items| ==> !KeyEq(cb, item.tableKey, items[j].tableKey)
    ensures Distinct(cb, items + [item])
  {
    hide Lawful, KeyEq;
    var r := items + [item];
    forall j | 0 <= j < |items|
      ensures !KeyEq(cb, r[j].tableKey, item.tableKey)
    {
      KeyEqIsEquivalence(cb, items[j].tableKey, item.tableKey, NULL);
    }
  }

  // ---------- caches ----------

  datatype Policy = Lru | Fifo | Lifo

  /** Where a full cache evicts: the front, or for LIFO the item before the newest. */
  function Victim(policy: Policy, size: nat): (i: nat)
    requires size >= 2
    ensures i < size - 1
  {
    if policy == Lifo then size - 2 else 0
  }

  function CachePut(cb: Callbacks, policy: Policy, max: nat, items: seq<Item>, key: Ptr, value: Ptr): (r: seq<Item>)
    requires max >= 1
  {
    var s := Put(cb, items, key, value);
    if |s| > max then Without(s, Victim(policy, |s|)) else s
  }

  function CacheFind(cb: Callbacks, policy: Policy, items: seq<Item>, key: Ptr): (r: seq<Item>) {
    if policy == Lru then Touch(cb, items, key) else items
  }

  datatype Op = PutOp(key: Ptr, value: Ptr) | FindOp(key: Ptr) | RemoveOp(key: Ptr) | UseLruOp | ClearOp

  /** One cache operation; use_lru_element exists for LRU caches only. */
  function Step(cb: Callbacks, policy: Policy, max: nat, items: seq<Item>, op: Op): (r: seq<Item>)
    requires max >= 1
  {
    match op
    case PutOp(key, value) => CachePut(cb, policy, max, items, key, value)
    case FindOp(key) => CacheFind(cb, policy, items, key)
    case RemoveOp(key) => Remove(cb, items, key)
    case UseLruOp => if policy == Lru && items != [] then MoveToBack(items, 0) else items
    case ClearOp => []
  }

  /** The key an operation uses, when it counts as a use: puts always, hits and use_lru only for LRU. */
  function Used(cb: Callbacks, policy: Policy, items: seq<Item>, op: Op): (keys: seq<Ptr>) {
    match op
    case PutOp(key, _) => [key]
    case FindOp(key) => if policy == Lru && Has(cb, items, key) then [key] else []
    case RemoveOp(_) => []
    case UseLruOp => if policy == Lru && items != [] then [items[0].nodeKey] else []
    case ClearOp => []
  }

  function Run(cb: Callbacks, policy: Policy, max: nat, ops: seq<Op>): (r: (seq<Item>, seq<Ptr>))
    requires max >= 1
  {
    if ops == [] then ([], [])
    else
      var (items, uses) := Run(cb, policy, max, ops[..|ops| - 1]);
      var op := ops[|ops| - 1];
      (Step(cb, policy, max, items, op), uses + Used(cb, policy, items, op))
  }

  /** The last time a key was used, -1 if never. */
  function LastUse(cb: Callbacks, uses: seq<Ptr>, key: Ptr): (t: int)
    ensures -1 <= t < |uses|
  {
    if uses == [] then -1
    else if KeyEq(cb, key, uses[|uses| - 1]) then |uses| - 1
    else LastUse(cb, uses[..|uses| - 1], key)
  }

  /** Items stand in the order in which they were last used. */
  ghost predicate ByRecency(cb: Callbacks, items: seq<Item>, uses: seq<Ptr>) {
    && (forall i :: 0 <= i < |items| ==> 0 <= LastUse(cb, uses, items[i].tableKey))
    && (forall i, j :: 0 <= i < j < |items| ==>
          LastUse(cb, uses, items[i].tableKey) < LastUse(cb, uses, items[j].tableKey))
  }

  lemma UseOther(cb: Callbacks, uses: seq<Ptr>, key: Ptr, k: Ptr)
    ensures !KeyEq(cb, k, key) ==> LastUse(cb, uses + [key], k) == LastUse(cb, uses, k)
    ensures KeyEq(cb, k, key) ==> LastUse(cb, uses + [key], k) == |uses|
  {
    assert (uses + [key])[..|uses|] == uses;
  }

  lemma WithoutKeepsRecency(cb: Callbacks, items: seq<Item>, uses: seq<Ptr>, i: nat)
    requires ByRecency(cb, items, uses) && i < |items|
    ensures ByRecency(cb, Without(items, i), uses)
  {
  }

  /** Appending an item just used, with no equal key among the others. */
  lemma AppendKeepsRecency(cb: Callbacks, items: seq<Item>, uses: seq<Ptr>, item: Item, key: Ptr)
    requires Lawful(cb) && ByRecency(cb, items, uses) && KeyEq(cb, key, item.tableKey)
    requires forall j :: 0 <= j < |items| ==> !KeyEq(cb, key, items[j].tableKey)
    ensures ByRecency(cb, items + [item], uses + [key])
  {
    hide Lawful, KeyEq, LastUse;
    var r := items + [item];
    forall j | 0 <= j < |r|
      ensures LastUse(cb, uses + [key], r[j].tableKey) ==
              if j < |items| then LastUse(cb, uses, items[j].tableKey) else |uses|
    {
      KeyEqIsEquivalence(cb, r[j].tableKey, key, NULL);
      KeyEqIsEquivalence(cb, key, r[j].tableKey, NULL);
      UseOther(cb, uses, key, r[j].tableKey);
    }
  }

  /** Moving or re-adding the item under a key: the others keep their keys apart from it. */
  lemma OthersApart(cb: Callbacks, items: seq<Item>, key: Ptr, i: nat)
    requires Lawful(cb) && Distinct(cb, items) && i < |items| && KeyEq(cb, key, items[i].tableKey)
    ensures forall j :: 0 <= j < |items| && j != i ==> !KeyEq(cb, key, items[j].tableKey)
    ensures forall j :: 0 <= j < |items| - 1 ==> !KeyEq(cb, key, Without(items, i)[j].tableKey)
    ensures forall j :: 0 <= j < |items| - 1 ==> !KeyEq(cb, items[i].tableKey, Without(items, i)[j].tableKey)
  {
    hide Lawful, KeyEq;
    forall j | 0 <= j < |items| && j != i
      ensures !KeyEq(cb, key, items[j].tableKey) && !KeyEq(cb, items[i].tableKey, items[j].tableKey)
    {
      KeyEqIsEquivalence(cb, key, items[i].tableKey, key);
      KeyEqIsEquivalence(cb, items[i].tableKey, key, items[j].tableKey);
      KeyEqIsEquivalence(cb, items[i].tableKey, items[j].tableKey, key);
      KeyEqIsEquivalence(cb, items[j].tableKey, items[i].tableKey, key);
    }
    forall j | 0 <= j < |items| - 1
      ensures Without(items, i)[j] == items[if j < i then j else j + 1]
    {
    }
  }

  /** Dropping the item under a key, if any, and appending one under that key, used now. */
  lemma PutKeeps(cb: Callbacks, items: seq<Item>, uses: seq<Ptr>, key: Ptr, value: Ptr)
    requires Lawful(cb) && Distinct(cb, items) && ByRecency(cb, items, uses)
    ensures Distinct(cb, Put(cb, items, key, value)) && ByRecency(cb, Put(cb, items, key, value), uses + [key])
  {
    hide Lawful, KeyEq, Distinct, ByRecency;
    var i := Find(cb, items, key);
    KeyEqIsEquivalence(cb, key, key, key);
    if i < |items| {
      var item := Item(items[i].tableKey, key, value);
      OthersApart(cb, items, key, i);
      WithoutKeepsDistinct(cb, items, i);
      WithoutKeepsRecency(cb, items, uses, i);
      AppendKeepsDistinct(cb, Without(items, i), item);
      AppendKeepsRecency(cb, Without(items, i), uses, item, key);
    } else {
      AppendKeepsDistinct(cb, items, Item(key, key, value));
      AppendKeepsRecency(cb, items, uses, Item(key, key, value), key);
    }
  }

  lemma MoveKeeps(cb: Callbacks, items: seq<Item>, uses: seq<Ptr>, i: nat, key: Ptr)
    requires Lawful(cb) && Distinct(cb, items) && ByRecency(cb, items, uses)
    requires i < |items| && KeyEq(cb, key, items[i].tableKey)
    ensures Distinct(cb, MoveToBack(items, i)) && ByRecency(cb, MoveToBack(items, i), uses + [key])
  {
    assert KeyEq(cb, items[i].nodeKey, items[i].tableKey);
    hide Lawful, KeyEq, Distinct, ByRecency;
    OthersApart(cb, items, key, i);
    WithoutKeepsDistinct(cb, items, i);
    WithoutKeepsRecency(cb, items, uses, i);
    AppendKeepsDistinct(cb, Without(items, i), items[i]);
    AppendKeepsRecency(cb, Without(items, i), uses, items[i], key);
  }

  lemma StepKeeps(cb: Callbacks, policy: Policy, max: nat, items: seq<Item>, uses: seq<Ptr>, op: Op)
    requires Lawful(cb) && max >= 1 && |items| <= max
    requires Distinct(cb, items) && ByRecency(cb, items, uses)
    ensures var r := Step(cb, policy, max, items, op);
      |r| <= max && Distinct(cb, r) && ByRecency(cb, r, uses + Used(cb, policy, items, op))
  {
    if items != [] {
      assert KeyEq(cb, items[0].nodeKey, items[0].tableKey);
    }
    hide Lawful, KeyEq, Distinct, ByRecency;
    assert uses + [] == uses;
    match op
    case PutOp(key, value) =>
      PutKeeps(cb, items, uses, key, value);
      var s := Put(cb, items, key, value);
      if |s| > max {
        WithoutKeepsDistinct(cb, s, Victim(policy, |s|));
        WithoutKeepsRecency(cb, s, uses + [key], Victim(policy, |s|));
      }
    case FindOp(key) =>
      var i := Find(cb, items, key);
      if policy == Lru && i < |items| {
        MoveKeeps(cb, items, uses, i, key);
      }
    case RemoveOp(key) =>
      var i := Find(cb, items, key);
      if i < |items| {
        WithoutKeepsDistinct(cb, items, i);
        WithoutKeepsRecency(cb, items, uses, i);
      }
    case UseLruOp =>
      if policy == Lru && items != [] {
        MoveKeeps(cb, items, uses, 0, items[0].nodeKey);
      }
    case ClearOp =>
      EmptyCache(cb, uses);
  }

  lemma EmptyCache(cb: Callbacks, uses: seq<Ptr>)
    ensures Distinct(cb, []) && ByRecency(cb, [], uses)
  {
  }

  /** Over every run: the bound holds, keys stay distinct, and items stand in order of last use. */
  lemma {:induction false} RunKeeps(cb: Callbacks, policy: Policy, max: nat, ops: seq<Op>)
    requires Lawful(cb) && max >= 1
    ensures var (items, uses) := Run(cb, policy, max, ops);
      |items| <= max && Distinct(cb, items) && ByRecency(cb, items, uses)
    decreases |ops|
  {
    hide Lawful, KeyEq, Distinct, ByRecency, Step, Used;
    if ops == [] {
      EmptyCache(cb, []);
    } else {
      var before := ops[..|ops| - 1];
      RunKeeps(cb, policy, max, before);
      var (items, uses) := Run(cb, policy, max, before);
      StepKeeps(cb, policy, max, items, uses, ops[|ops| - 1]);
    }
  }

  /** A put that does not overflow the cache binds the key and changes no other binding. */
  lemma PutLaw(cb: Callbacks, policy: Policy, max: nat, items: seq<Item>, key: Ptr, value: Ptr, k: Ptr)
    requires Lawful(cb) && max >= 1 && Distinct(cb, items) && |items| <= max && (Has(cb, items, key) || |items| < max)
    ensures Lookup(cb, CachePut(cb, policy, max, items, key, value), k) ==
            if KeyEq(cb, k, key) then Some(value) else Lookup(cb, items, k)
  {
    hide Lawful, KeyEq, Distinct, Lookup, Find;
    LookupLaws(cb, items, key, value, k);
  }

  /** A put of a new key into a full cache binds the key, unbinds the victim's, and changes no other binding. */
  lemma PutOverLaw(cb: Callbacks, policy: Policy, max: nat, items: seq<Item>, key: Ptr, value: Ptr, k: Ptr)
    requires Lawful(cb) && max >= 1 && Distinct(cb, items) && |items| == max && !Has(cb, items, key)
    ensures var victim := items[if policy == Lifo then max - 1 else 0].tableKey;
            Lookup(cb, CachePut(cb, policy, max, items, key, value), k) ==
            if KeyEq(cb, k, key) then Some(value) else if KeyEq(cb, k, victim) then None else Lookup(cb, items, k)
  {
    hide Lawful, KeyEq, Distinct, Lookup, Find, ByRecency;
    var s, v := Put(cb, items, key, value), if policy == Lifo then max - 1 else 0;
    assert s == items + [Item(key, key, value)] && Victim(policy, |s|) == v && s[v] == items[v];
    KeyEqIsEquivalence(cb, key, key, key);
    NotFound(cb, items, key);
    AppendKeepsDistinct(cb, items, Item(key, key, value));
    LookupLaws(cb, items, key, value, k);
    LookupWithout(cb, s, v, k);
    KeyEqIsEquivalence(cb, k, key, items[v].tableKey);
    KeyEqIsEquivalence(cb, k, items[v].tableKey, key);
    KeyEqIsEquivalence(cb, key, k, items[v].tableKey);
  }

  lemma NotFound(cb: Callbacks, items: seq<Item>, key: Ptr)
    requires !Has(cb, items, key)
    ensures forall j :: 0 <= j < |items| ==> !KeyEq(cb, key, items[j].tableKey)
  {
  }

  /** Finding changes no binding; it moves what it finds to the back of an LRU cache and changes nothing else. */
  lemma FindLaw(cb: Callbacks, policy: Policy, max: nat, items: seq<Item>, key: Ptr, k: Ptr)
    requires Lawful(cb) && max >= 1 && Distinct(cb, items)
    ensures var r := Step(cb, policy, max, items, FindOp(key));
            && Lookup(cb, r, k) == Lookup(cb, items, k)
            && (policy == Fifo || policy == Lifo || !Has(cb, items, key) ==> r == items)
            && (policy == Lru && Has(cb, items, key) ==>
                  exists i :: 0 <= i < |items| && KeyEq(cb, key, items[i].tableKey) && r == items[..i] + items[i + 1..] + [items[i]])
  {
    hide Lawful, KeyEq, Distinct, Lookup;
    LookupLaws(cb, items, key, key, k);
  }

  /**
    What a key is bound to after an operation: a put binds its key, to the loss of at most the policy's
    victim and of that only when the cache is full and the key new; a removal unbinds its key and a clear
    everything; the others change no binding.
   */
  function BoundAfter(cb: Callbacks, policy: Policy, max: nat, items: seq<Item>, op: Op, k: Ptr): Option<Ptr> {
    match op
    case PutOp(key, value) =>
      if KeyEq(cb, k, key) then Some(value)
      else if |items| == max > 0 && !Has(cb, items, key) && KeyEq(cb, k, items[if policy == Lifo then max - 1 else 0].tableKey) then None
      else Lookup(cb, items, k)
    case RemoveOp(key) => if KeyEq(cb, k, key) then None else Lookup(cb, items, k)
    case ClearOp => None
    case _ => Lookup(cb, items, k)
  }

  /** The bindings of a cache, over every run. */
  lemma RunBinds(cb: Callbacks, policy: Policy, max: nat, ops: seq<Op>, op: Op, k: Ptr)
    requires Lawful(cb) && max >= 1
    ensures Run(cb, policy, max, []).0 == []
    ensures Lookup(cb, Run(cb, policy, max, ops + [op]).0, k) == BoundAfter(cb, policy, max, Run(cb, policy, max, ops).0, op, k)
  {
    hide Lawful, KeyEq, Distinct, Lookup, CachePut, ByRecency, Find, Remove;
    var items := Run(cb, policy, max, ops).0;
    RunKeeps(cb, policy, max, ops);
    assert (ops + [op])[..|ops|] == ops;
    match op
    case PutOp(key, value) =>
      if |items| == max && !Has(cb, items, key) {
        PutOverLaw(cb, policy, max, items, key, value, k);
      } else {
        PutLaw(cb, policy, max, items, key, value, k);
      }
    case FindOp(key) => FindLaw(cb, policy, max, items, key, k);
    case RemoveOp(key) => LookupLaws(cb, items, key, key, k);
    case UseLruOp =>
      if items != [] {
        FrontTouched(cb, items, k);
      }
    case ClearOp => NoneCached(cb, k);
  }

  lemma NoneCached(cb: Callbacks, k: Ptr)
    ensures Lookup(cb, [], k) == None
  {
  }

  lemma FrontTouched(cb: Callbacks, items: seq<Item>, k: Ptr)
    requires Lawful(cb) && Distinct(cb, items) && items != []
    ensures Lookup(cb, MoveToBack(items, 0), k) == Lookup(cb, items, k)
  {
    hide Lawful, KeyEq, Lookup, Find;
    var key := items[0].tableKey;
    KeyEqIsEquivalence(cb, key, key, key);
    FindOwn(cb, items, 0);
    LookupLaws(cb, items, key, key, k);
  }

  /**
    What a full cache evicts on a put of a new key, over every run: under LRU and FIFO the item
    whose last use is the oldest, under LIFO the item last put before this one. All others stay.
   */
  lemma Eviction(cb: Callbacks, policy: Policy, max: nat, ops: seq<Op>, key: Ptr, value: Ptr)
    requires Lawful(cb) && max >= 1
    ensures var (items, uses) := Run(cb, policy, max, ops);
      |items| == max && !Has(cb, items, key) ==>
        var v := if policy == Lifo then max - 1 else 0;
        && CachePut(cb, policy, max, items, key, value) == Without(items, v) + [Item(key, key, value)]
        && forall j :: 0 <= j < max && j != v ==>
             if policy == Lifo then LastUse(cb, uses, items[j].tableKey) < LastUse(cb, uses, items[v].tableKey)
             else LastUse(cb, uses, items[v].tableKey) < LastUse(cb, uses, items[j].tableKey)
  {
    hide Lawful, KeyEq, LastUse, Run;
    RunKeeps(cb, policy, max, ops);
    var (items, uses) := Run(cb, policy, max, ops);
    if |items| == max && !Has(cb, items, key) {
      var v := if policy == Lifo then max - 1 else 0;
      assert CachePut(cb, policy, max, items, key, value) == Without(items, v) + [Item(key, key, value)];
    }
  }
}
