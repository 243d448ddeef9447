/**
  The finite map that a bag of slots stands for: keys compared up to the
  client's equivalence, hash codes guarded against null keys and against 0.
 */
module EntryMaps {
  import opened PowersOfTwo
  import opened RobinHood

  /** The client's callbacks. */
  datatype Callbacks = Callbacks(hashFn: Ptr -> nat, equalsFn: (Ptr, Ptr) -> bool)

  /** What the client owes: 64-bit codes, an equivalence on non-null keys, equal keys hash alike. */
  ghost predicate Lawful(cb: Callbacks) {
    && (forall a :: cb.hashFn(a) < TWO64)
    && (forall a :: cb.equalsFn(a, a))
    && (forall a, b :: cb.equalsFn(a, b) ==> cb.equalsFn(b, a))
    && (forall a, b, c :: cb.equalsFn(a, b) && cb.equalsFn(b, c) ==> cb.equalsFn(a, c))
    && (forall a, b :: cb.equalsFn(a, b) ==> cb.hashFn(a) == cb.hashFn(b))
  }

  function HashFor(cb: Callbacks, key: Ptr): (code: nat)
    ensures code != 0
  {
    if key == NULL then 42
    else if cb.hashFn(key) == 0 then 1
    else cb.hashFn(key)
  }

  predicate SafeEq(eq: (Ptr, Ptr) -> bool, a: Ptr, b: Ptr) {
    a == b || (a != NULL && b != NULL && eq(a, b))
  }

  predicate KeyEq(cb: Callbacks, a: Ptr, b: Ptr) {
    SafeEq(cb.equalsFn, a, b)
  }

  /** The null guards keep the client's equivalence an equivalence, consistent with the guarded hash. */
  lemma KeyEqIsEquivalence(cb: Callbacks, a: Ptr, b: Ptr, c: Ptr)
    requires Lawful(cb)
    ensures KeyEq(cb, a, a)
    ensures KeyEq(cb, a, b) ==> KeyEq(cb, b, a) && HashFor(cb, a) == HashFor(cb, b)
    ensures KeyEq(cb, a, b) && KeyEq(cb, b, c) ==> KeyEq(cb, a, c)
    ensures HashFor(cb, a) < TWO64
  {
  }

  /** What the null-safe comparison means: the client's function decides between two objects, and NULL equals itself only. */
  lemma SafeEqIsClient(eq: (Ptr, Ptr) -> bool, a: Ptr, b: Ptr)
    ensures a != NULL && b != NULL && a != b ==> (SafeEq(eq, a, b) <==> eq(a, b))
    ensures (a == NULL) != (b == NULL) ==> !SafeEq(eq, a, b)
    ensures a == b ==> SafeEq(eq, a, b)
  {
  }

  /** Keys are equal exactly when the client's function says so, or when both are NULL. */
  lemma KeyEqIsClient(cb: Callbacks, a: Ptr, b: Ptr)
    requires Lawful(cb)
    ensures a != NULL && b != NULL ==> (KeyEq(cb, a, b) <==> cb.equalsFn(a, b))
    ensures a == NULL || b == NULL ==> (KeyEq(cb, a, b) <==> a == b)
    ensures a != NULL && cb.hashFn(a) != 0 ==> HashFor(cb, a) == cb.hashFn(a)
  {
  }

  // ---------- bags of slots ----------

  /** No two stored keys are equal, and no entry is stored twice. */
  ghost predicate KeysDistinct(cb: Callbacks, m: multiset<Entry>) {
    && (forall e :: e in m && Full(e) ==> m[e] == 1)
    && (forall a, b :: a in m && b in m && Full(a) && Full(b) && KeyEq(cb, a.key, b.key) ==> a == b)
  }

  /** Full slots carry the code of their key; empty slots are zeroed. */
  ghost predicate CodesRight(cb: Callbacks, m: multiset<Entry>) {
    && (forall e :: e in m && Full(e) ==> e.hash == HashFor(cb, e.key))
    && Zeroed(m)
  }

  ghost predicate Zeroed(m: multiset<Entry>) {
    forall e :: e in m && !Full(e) ==> e == EMPTY
  }

  ghost predicate BagOk(cb: Callbacks, m: multiset<Entry>) {
    EMPTY in m && KeysDistinct(cb, m) && CodesRight(cb, m)
  }

  /** The map, as its set of entries. */
  ghost function Elements(m: multiset<Entry>): set<Entry> {
    set e | e in m && Full(e)
  }

  ghost function FullPart(m: multiset<Entry>): multiset<Entry> {
    m[EMPTY := 0]
  }

  // ---------- the map ----------

  ghost function MapRemove(cb: Callbacks, m: set<Entry>, key: Ptr): set<Entry> {
    set e | e in m && !KeyEq(cb, key, e.key)
  }

  /** The map with key bound to value, replacing any entry under an equal key. */
  ghost function MapPut(cb: Callbacks, m: set<Entry>, key: Ptr, value: Ptr): set<Entry> {
    MapRemove(cb, m, key) + {Entry(key, value, HashFor(cb, key))}
  }

  ghost predicate HasKey(cb: Callbacks, m: set<Entry>, key: Ptr) {
    exists e :: e in m && KeyEq(cb, key, e.key)
  }

  /** The map binds key to value. */
  ghost predicate Binds(cb: Callbacks, m: set<Entry>, key: Ptr, value: Ptr) {
    exists e :: e in m && KeyEq(cb, key, e.key) && e.value == value
  }

  ghost predicate IsMap(cb: Callbacks, m: set<Entry>) {
    forall a, b :: a in m && b in m && KeyEq(cb, a.key, b.key) ==> a == b
  }

  /** Putting rebinds exactly the keys equal to the given one; removing unbinds exactly those. */
  lemma MapLaws(cb: Callbacks, m: set<Entry>, key: Ptr, value: Ptr, k: Ptr, v: Ptr)
    requires Lawful(cb) && IsMap(cb, m)
    ensures IsMap(cb, MapPut(cb, m, key, value)) && IsMap(cb, MapRemove(cb, m, key))
    ensures Binds(cb, MapPut(cb, m, key, value), k, v) <==>
            if KeyEq(cb, key, k) then v == value else Binds(cb, m, k, v)
    ensures Binds(cb, MapRemove(cb, m, key), k, v) <==> !KeyEq(cb, key, k) && Binds(cb, m, k, v)
    ensures Binds(cb, m, k, v) && Binds(cb, m, k, value) ==> v == value
  {
    var e := Entry(key, value, HashFor(cb, key));
    assert e in MapPut(cb, m, key, value);
    forall x: Entry
      ensures KeyEq(cb, key, k) && KeyEq(cb, k, x.key) ==> KeyEq(cb, key, x.key)
      ensures KeyEq(cb, key, x.key) && KeyEq(cb, k, x.key) ==> KeyEq(cb, key, k)
      ensures KeyEq(cb, key, x.key) <==> KeyEq(cb, x.key, key)
    {
      KeyEqIsEquivalence(cb, key, k, x.key);
      KeyEqIsEquivalence(cb, k, x.key, key);
      KeyEqIsEquivalence(cb, key, x.key, k);
      KeyEqIsEquivalence(cb, x.key, key, k);
    }
    KeyEqIsEquivalence(cb, key, k, key);
    KeyEqIsEquivalence(cb, k, key, k);
    if Binds(cb, m, k, v) && Binds(cb, m, k, value) {
      var x :| x in m && KeyEq(cb, k, x.key) && x.value == v;
      var y :| y in m && KeyEq(cb, k, y.key) && y.value == value;
      KeyEqIsEquivalence(cb, k, x.key, y.key);
      KeyEqIsEquivalence(cb, x.key, k, y.key);
    }
    forall x | Binds(cb, m, k, v) && x in m && KeyEq(cb, k, x.key) && x.value == v && !KeyEq(cb, key, k)
      ensures x in MapRemove(cb, m, key)
    {
    }
  }

  /** A key is present exactly when it is bound to something. */
  lemma HasKeyIsBound(cb: Callbacks, m: set<Entry>, k: Ptr)
    ensures HasKey(cb, m, k) <==> exists v :: Binds(cb, m, k, v)
  {
    if HasKey(cb, m, k) {
      var e :| e in m && KeyEq(cb, k, e.key);
      assert Binds(cb, m, k, e.value);
    }
  }

  /** The entry found under a key holds the one value the key is bound to. */
  lemma FoundIsBound(cb: Callbacks, m: set<Entry>, k: Ptr, e: Entry, v: Ptr)
    requires Lawful(cb) && IsMap(cb, m) && e in m && KeyEq(cb, k, e.key)
    ensures Binds(cb, m, k, v) <==> v == e.value
  {
    hide Lawful, KeyEq;
    if Binds(cb, m, k, v) {
      var x :| x in m && KeyEq(cb, k, x.key) && x.value == v;
      KeyEqIsEquivalence(cb, k, x.key, k);
      KeyEqIsEquivalence(cb, x.key, k, e.key);
    }
  }

  /**
    The laws of the map in the client's own terms. For objects a and k: after a put under a, the keys the
    client calls equal to a are bound to the new value and no other binding changes; after a removal those
    keys are bound to nothing and no other binding changes. The empty map binds nothing.
   */
  lemma ClientLaws(cb: Callbacks, m: set<Entry>, a: Ptr, value: Ptr, k: Ptr, v: Ptr)
    requires Lawful(cb) && IsMap(cb, m) && a != NULL && k != NULL
    ensures cb.equalsFn(a, k) ==> (Binds(cb, MapPut(cb, m, a, value), k, v) <==> v == value)
    ensures !cb.equalsFn(a, k) ==> (Binds(cb, MapPut(cb, m, a, value), k, v) <==> Binds(cb, m, k, v))
    ensures cb.equalsFn(a, k) ==> !HasKey(cb, MapRemove(cb, m, a), k)
    ensures !cb.equalsFn(a, k) ==> (Binds(cb, MapRemove(cb, m, a), k, v) <==> Binds(cb, m, k, v))
    ensures !HasKey(cb, {}, k)
  {
    hide Lawful, KeyEq, Binds, HasKey, IsMap;
    KeyEqIsClient(cb, a, k);
    MapLaws(cb, m, a, value, k, v);
    HasKeyIsBound(cb, MapRemove(cb, m, a), k);
    forall w
      ensures cb.equalsFn(a, k) ==> !Binds(cb, MapRemove(cb, m, a), k, w)
    {
      MapLaws(cb, m, a, value, k, w);
    }
    NothingBound(cb, k);
  }

  /** The same for the key NULL, which equals itself only. */
  lemma NullLaws(cb: Callbacks, m: set<Entry>, a: Ptr, value: Ptr, k: Ptr, v: Ptr)
    requires Lawful(cb) && IsMap(cb, m) && (a == NULL || k == NULL)
    ensures Binds(cb, MapPut(cb, m, a, value), k, v) <==> if a == k then v == value else Binds(cb, m, k, v)
    ensures Binds(cb, MapRemove(cb, m, a), k, v) <==> a != k && Binds(cb, m, k, v)
  {
    hide Lawful, KeyEq, Binds, IsMap;
    KeyEqIsClient(cb, a, k);
    MapLaws(cb, m, a, value, k, v);
  }

  lemma NothingBound(cb: Callbacks, k: Ptr)
    ensures !HasKey(cb, {}, k)
  {
  }

  // ---------- how slot operations act on the map ----------

  lemma ElementCount(cb: Callbacks, m: multiset<Entry>)
    requires KeysDistinct(cb, m) && CodesRight(cb, m)
    ensures FullPart(m) == multiset(Elements(m))
    ensures |Elements(m)| == |m| - m[EMPTY]
  {
    assert FullPart(m) == multiset(Elements(m));
    assert |m| == |FullPart(m)| + m[EMPTY];
  }

  /** Counts after x in the bag becomes y. */
  lemma ReplaceCount(m: multiset<Entry>, x: Entry, y: Entry, m': multiset<Entry>, e: Entry)
    requires m' + multiset{x} == m + multiset{y}
    ensures m'[e] + (if e == x then 1 else 0) == m[e] + (if e == y then 1 else 0)
  {
    assert (m' + multiset{x})[e] == (m + multiset{y})[e];
  }

  /** Membership after an empty slot becomes an entry that was not there. */
  lemma InsertMembers(m: multiset<Entry>, m': multiset<Entry>, e: Entry)
    requires m' + multiset{EMPTY} == m + multiset{e} && Full(e) && e !in m
    ensures forall x :: Full(x) ==> (x in m' <==> x == e || x in m)
    ensures forall x :: Full(x) && x in m' ==> m'[x] == if x == e then 1 else m[x]
    ensures forall x :: !Full(x) && x in m' ==> x in m
    ensures |m'| == |m|
  {
    forall x
      ensures m'[x] + (if x == EMPTY then 1 else 0) == m[x] + (if x == e then 1 else 0)
    {
      ReplaceCount(m, EMPTY, e, m', x);
    }
    assert |m' + multiset{EMPTY}| == |m + multiset{e}|;
  }

  lemma InsertDistinct(cb: Callbacks, m: multiset<Entry>, m': multiset<Entry>, e: Entry)
    requires Lawful(cb) && KeysDistinct(cb, m) && Full(e) && !HasKey(cb, Elements(m), e.key)
    requires forall x :: Full(x) ==> (x in m' <==> x == e || x in m)
    requires forall x :: Full(x) && x in m' ==> m'[x] == if x == e then 1 else m[x]
    ensures KeysDistinct(cb, m')
  {
    forall a, b | a in m' && b in m' && Full(a) && Full(b) && KeyEq(cb, a.key, b.key)
      ensures a == b
    {
      KeyEqIsEquivalence(cb, a.key, b.key, b.key);
      assert a == e || a in Elements(m);
      assert b == e || b in Elements(m);
    }
  }

  lemma InsertBag(cb: Callbacks, m: multiset<Entry>, m': multiset<Entry>, e: Entry)
    requires Lawful(cb) && BagOk(cb, m)
    requires Full(e) && e.hash == HashFor(cb, e.key) && !HasKey(cb, Elements(m), e.key)
    requires m' + multiset{EMPTY} == m + multiset{e}
    ensures KeysDistinct(cb, m') && CodesRight(cb, m')
    ensures Elements(m') == Elements(m) + {e} && |Elements(m')| == |Elements(m)| + 1
    ensures |Elements(m')| < |m| ==> EMPTY in m'
  {
    KeyEqIsEquivalence(cb, e.key, e.key, e.key);
    assert e !in Elements(m);
    InsertMembers(m, m', e);
    InsertDistinct(cb, m, m', e);
    hide Lawful, KeyEq, HasKey;
    assert CodesRight(cb, m');
    ElementCount(cb, m');
    hide KeysDistinct, CodesRight, HashFor;
    assert Elements(m') == Elements(m) + {e};
  }

  lemma RemoveBag(cb: Callbacks, m: multiset<Entry>, m': multiset<Entry>, e: Entry)
    requires BagOk(cb, m) && e in m && Full(e)
    requires m' + multiset{e} == m + multiset{EMPTY}
    ensures BagOk(cb, m')
    ensures Elements(m') == Elements(m) - {e} && |Elements(m')| == |Elements(m)| - 1
  {
    forall x
      ensures m'[x] == m[x] + (if x == EMPTY then 1 else 0) - (if x == e then 1 else 0)
    {
      ReplaceCount(m, e, EMPTY, m', x);
    }
    assert e in Elements(m);
  }

  /** In a table, every entry under a key equal to a stored one is that entry. */
  lemma OnlyOneEqual(cb: Callbacks, m: multiset<Entry>, stored: Entry, key: Ptr)
    requires Lawful(cb) && KeysDistinct(cb, m)
    requires stored in m && Full(stored) && KeyEq(cb, key, stored.key)
    ensures forall x :: x in m && Full(x) && KeyEq(cb, key, x.key) ==> x == stored
    ensures MapRemove(cb, Elements(m), key) == Elements(m) - {stored}
  {
    forall x | x in m && Full(x) && KeyEq(cb, key, x.key)
      ensures x == stored
    {
      KeyEqIsEquivalence(cb, key, x.key, x.key);
      KeyEqIsEquivalence(cb, x.key, key, stored.key);
    }
  }

  /** The counts after a stored entry becomes another, and what that means for membership. */
  lemma ReplaceMembers(m: multiset<Entry>, m': multiset<Entry>, stored: Entry, e: Entry)
    requires m' + multiset{stored} == m + multiset{e} && m[stored] == 1 && (e in m ==> e == stored)
    ensures forall x :: x in m' <==> x == e || (x in m && x != stored)
    ensures forall x :: x in m' ==> m'[x] == if x == e then 1 else m[x]
  {
    forall x
      ensures m'[x] == m[x] + (if x == e then 1 else 0) - (if x == stored then 1 else 0)
    {
      ReplaceCount(m, stored, e, m', x);
    }
  }

  /** Rewriting the key and value of a stored entry to an equal key. */
  lemma ReplaceBag(cb: Callbacks, m: multiset<Entry>, m': multiset<Entry>, stored: Entry, e: Entry)
    requires Lawful(cb) && BagOk(cb, m) && stored in m && Full(stored)
    requires e.hash == HashFor(cb, e.key) && KeyEq(cb, e.key, stored.key)
    requires m' + multiset{stored} == m + multiset{e}
    ensures BagOk(cb, m')
    ensures Elements(m') == MapPut(cb, Elements(m), e.key, e.value)
    ensures |Elements(m')| == |Elements(m)|
  {
    OnlyOneEqual(cb, m, stored, e.key);
    KeyEqIsEquivalence(cb, e.key, e.key, e.key);
    ReplaceMembers(m, m', stored, e);
    ReplaceDistinct(cb, m, m', stored, e);
    hide Lawful, KeyEq;
    assert Elements(m') == (Elements(m) - {stored}) + {e};
    assert |Elements(m) - {stored}| == |Elements(m)| - 1;
  }

  lemma ReplaceDistinct(cb: Callbacks, m: multiset<Entry>, m': multiset<Entry>, stored: Entry, e: Entry)
    requires Lawful(cb) && KeysDistinct(cb, m) && stored in m && Full(stored) && KeyEq(cb, e.key, stored.key)
    requires forall x :: x in m' <==> x == e || (x in m && x != stored)
    requires forall x :: x in m' ==> m'[x] == if x == e then 1 else m[x]
    ensures KeysDistinct(cb, m')
  {
    OnlyOneEqual(cb, m, stored, e.key);
    forall a, b | a in m' && b in m' && Full(a) && Full(b) && KeyEq(cb, a.key, b.key)
      ensures a == b
    {
      KeyEqIsEquivalence(cb, a.key, b.key, e.key);
    }
  }

  /** A larger bag with the same full entries has an empty slot. */
  lemma RoomLeft(bigger: multiset<Entry>, part: multiset<Entry>)
    requires FullPart(bigger) == FullPart(part) && |part| < |bigger|
    ensures EMPTY in bigger
  {
    assert |bigger| == |FullPart(bigger)| + bigger[EMPTY];
    assert |part| == |FullPart(part)| + part[EMPTY];
  }

  lemma SameFullPart(cb: Callbacks, m: multiset<Entry>, m': multiset<Entry>)
    requires BagOk(cb, m) && CodesRight(cb, m') && EMPTY in m'
    requires FullPart(m') == FullPart(m)
    ensures BagOk(cb, m') && Elements(m') == Elements(m)
  {
    forall e | Full(e)
      ensures m'[e] == m[e]
    {
      assert FullPart(m')[e] == FullPart(m)[e];
    }
  }
}
