/**
  The hash table of source/hash_table.c. The slot array is updated in place by
  displacement, resizing and backward shift; every operation is specified on
  the finite map the array stands for, given by its set of entries.
 */
module HashTables {
  import opened Options
  import opened PowersOfTwo
  import opened RobinHood
  import opened EntryMaps

  /** What aws_hash_table_create reports. */
  datatype Created = Failed | Existing(slot: nat) | Inserted(slot: nat)

  const MAX_POWER_OF_TWO: nat := 0x8000_0000_0000_0000
  const ENTRY_BYTES: nat := 24
  const STATE_BYTES: nat := 80

  // ---------- sizes ----------

  lemma {:induction false} RoundUpIsSize(n: nat, k: nat)
    requires 1 <= k <= 63 && n <= Pow2(63)
    ensures IsSize(RoundUp(n, Pow2(k)))
    decreases 63 - k
  {
    if Pow2(k) < n {
      if k == 63 {
        assert false;
      }
      RoundUpIsSize(n, k + 1);
    }
  }

  function Representable(size: nat): bool {
    size * ENTRY_BYTES + STATE_BYTES < TWO64
  }

  /** Slot count for an expected number of elements; None where the C code raises an overflow error. */
  function SizeFor(expected: nat): (r: Option<nat>)
    ensures r.Some? ==> r.value >= expected && r.value >= 2 && Representable(r.value)
  {
    var least := if expected < 2 then 2 else expected;
    if least > MAX_POWER_OF_TWO then None
    else if Representable(RoundUp(least, 2)) then Some(RoundUp(least, 2))
    else None
  }

  /** A table can be had exactly for up to 2 to the 59 elements: more slots would overflow the size of the allocation. */
  lemma SizeForSome(expected: nat)
    ensures SizeFor(expected).Some? <==> expected <= 0x800_0000_0000_0000
  {
    Pow2At59();
    Pow2At63();
    var least := if expected < 2 then 2 else expected;
    if least <= MAX_POWER_OF_TWO {
      var j := RoundUpIsLeast(least, 1, 63);
      if j <= 59 {
        Pow2Monotone(j, 59);
      } else {
        Pow2Monotone(60, j);
        Pow2Next(59);
      }
    }
  }

  lemma Pow2At59()
    ensures Pow2(59) == 0x800_0000_0000_0000
  {
    Pow2At63();
    Pow2Next(59);
    Pow2Next(60);
    Pow2Next(61);
    Pow2Next(62);
  }

  lemma SizeForIsSize(expected: nat)
    ensures SizeFor(expected).Some? ==> IsSize(SizeFor(expected).value)
  {
    Pow2At63();
    if expected <= MAX_POWER_OF_TWO {
      RoundUpIsSize(if expected < 2 then 2 else expected, 1);
    }
  }

  lemma Pow2At63()
    ensures Pow2(63) == MAX_POWER_OF_TWO && Pow2(1) == 2
  {
    Pow2At64();
    assert Pow2(64) == 2 * Pow2(63);
    assert Pow2(1) == 2 * Pow2(0);
  }

  lemma DoubledPower(n: nat, k: nat)
    requires 1 <= k && n == Pow2(k)
    ensures n >= 2 && (SizeFor(2 * n).Some? ==> SizeFor(2 * n).value == 2 * n)
  {
    hide Pow2;
    Pow2One();
    Pow2Monotone(1, k);
    Pow2Next(k);
    var j := RoundUpIsLeast(2 * n, 1, k + 1);
    if j < k + 1 {
      Pow2Monotone(j, k);
    }
  }

  /** Doubling a slot count gives a slot count with room for one more entry, or is refused. */
  lemma DoubledSize(n: nat)
    requires IsSize(n)
    ensures SizeFor(2 * n).Some? ==> SizeFor(2 * n).value == 2 * n && IsSize(2 * n)
    ensures MaxLoad(n) < MaxLoad(2 * n)
  {
    var k: nat :| 1 <= k <= 63 && n == Pow2(k);
    DoubledPower(n, k);
    SizeForIsSize(2 * n);
    LoadGrows(n);
  }

  /** The double nearest to 0.95 is LOAD_FACTOR / LOAD_UNIT; its product with a power of two is exact. */
  const LOAD_FACTOR := 8556839292003942
  const LOAD_UNIT := 0x20_0000_0000_0000

  function AtMost(x: int, most: int): int {
    if x > most then most else x
  }

  /** Load limit: 95 percent, and below the size, so a slot always stays empty. */
  function MaxLoad(size: nat): (r: nat)
    requires size >= 2
    ensures 1 <= r < size
  {
    AtMost(LOAD_FACTOR * size / LOAD_UNIT, size - 1)
  }

  /** The limit is the integer part of the size times that double, which is the nearest to 95 percent. */
  lemma LoadIsNearest(size: nat)
    requires size >= 2
    ensures MaxLoad(size) * LOAD_UNIT <= LOAD_FACTOR * size < (MaxLoad(size) + 1) * LOAD_UNIT
    ensures 2 * 20 * LOAD_FACTOR - 20 <= 2 * 19 * LOAD_UNIT <= 2 * 20 * LOAD_FACTOR + 20
  {
  }

  lemma LoadGrows(n: nat)
    requires n >= 2
    ensures MaxLoad(n) < MaxLoad(2 * n)
  {
    var x := LOAD_FACTOR * n;
    assert LOAD_FACTOR * (2 * n) == 2 * x;
    assert x / LOAD_UNIT < 2 * x / LOAD_UNIT;
  }

  // ---------- slot arrays ----------

  /** Everything the slot array must satisfy. */
  ghost predicate TableOk(cb: Callbacks, s: seq<Entry>) {
    Ordered(s) && BagOk(cb, multiset(s))
  }

  lemma OverwriteKeepsTable(cb: Callbacks, s: seq<Entry>, at: nat, e: Entry)
    requires Lawful(cb) && TableOk(cb, s) && at < |s| && Full(s[at])
    requires e.hash == s[at].hash == HashFor(cb, e.key) && KeyEq(cb, e.key, s[at].key)
    ensures TableOk(cb, s[at := e])
    ensures Elements(multiset(s[at := e])) == MapPut(cb, Elements(multiset(s)), e.key, e.value)
    ensures |Elements(multiset(s[at := e]))| == |Elements(multiset(s))|
  {
    assert Ordered(s[at := e]) by {
      SameCodesKeepOrder(s, s[at := e]);
    }
    UpdateBag(s, at, e);
    ReplaceBag(cb, multiset(s), multiset(s[at := e]), s[at], e);
  }

  lemma SameCodesKeepOrder(s: seq<Entry>, s': seq<Entry>)
    requires Ordered(s) && |s'| == |s| && forall i :: 0 <= i < |s| ==> s'[i].hash == s[i].hash
    ensures Ordered(s')
  {
    forall i | 0 <= i < |s|
      ensures Local(s', i)
    {
      assert Local(s, i);
    }
  }

  lemma UpdateBag(s: seq<Entry>, at: nat, e: Entry)
    requires at < |s|
    ensures multiset(s[at := e]) + multiset{s[at]} == multiset(s) + multiset{e}
    ensures s[at] in multiset(s)
  {
  }

  lemma ShiftKeepsTable(cb: Callbacks, s: seq<Entry>, i: nat, k: nat)
    requires TableOk(cb, s) && i < |s| && Full(s[i]) && ShiftRun(s, i, k)
    ensures TableOk(cb, Shifted(s, i, k))
    ensures Elements(multiset(Shifted(s, i, k))) == Elements(multiset(s)) - {s[i]}
    ensures |Elements(multiset(Shifted(s, i, k)))| == |Elements(multiset(s))| - 1
  {
    ShiftKeepsOrder(s, i, k);
    ShiftedContents(s, i, k);
    assert s[i] in multiset(s);
    RemoveBag(cb, multiset(s), multiset(Shifted(s, i, k)), s[i]);
  }

  class HashTable {
    const cb: Callbacks
    var slots: array<Entry>
    var entryCount: nat
    var maxLoad: nat

    ghost predicate Valid()
      reads this, slots
    {
      && Lawful(cb)
      && IsSize(slots.Length) && slots.Length >= 2 && Representable(slots.Length)
      && maxLoad == MaxLoad(slots.Length)
      && entryCount <= maxLoad
      && TableOk(cb, slots[..])
      && entryCount == |Contents()|
    }

    ghost function Contents(): set<Entry>
      reads this, slots
    {
      Elements(multiset(slots[..]))
    }

    /** aws_hash_table_init, on the path where the size is representable. */
    constructor (cb: Callbacks, expected: nat)
      requires Lawful(cb) && SizeFor(expected).Some?
      ensures Valid() && fresh(slots) && this.cb == cb
      ensures Contents() == {} && entryCount == 0
      ensures slots.Length >= expected
    {
      SizeForIsSize(expected);
      var size := SizeFor(expected).value;
      this.cb := cb;
      slots := new Entry[size](_ => EMPTY);
      entryCount := 0;
      maxLoad := MaxLoad(size);
      new;
      AllEmpty(cb, slots[..]);
    }

    /** s_find_entry: the home slot, then the probe loop. */
    method FindEntry(hash: nat, key: Ptr) returns (found: bool, at: nat, probe: nat)
      requires Valid() && hash == HashFor(cb, key)
      ensures at < slots.Length
      ensures found ==> Full(slots[at]) && KeyEq(cb, key, slots[at].key)
      ensures !found ==> !HasKey(cb, Contents(), key)
      ensures !found ==> Carried(slots[..], Entry(key, NULL, hash), probe)
    {
      ghost var s := slots[..];
      var n := slots.Length;
      assert NoneBefore(cb, s, hash, key, 0) && Carried(s, Entry(key, NULL, hash), 0);
      hide Lawful, BagOk, Ordered, IsSize, NoneBefore, Probe, ProbeOf, HasKey, Elements, HashFor, KeyEq, Home, Carried, Offset;
      ProbeIsWrap(hash, 0, n);
      at, probe, found := Probe(hash, 0, n), 0, false;
      if !Full(slots[at]) {
        AbsentAt(cb, s, hash, key, 0);
        return;
      }
      if slots[at].hash == hash && KeyEq(cb, key, slots[at].key) {
        found := true;
        return;
      }
      HasEmpty(cb, s);
      NoneBeforeNext(cb, s, hash, key, 0, at);
      PassKeepsCarried(s, Entry(key, NULL, hash), 0, at);
      found, at, probe := FindEntry1(hash, key);
    }

    /** s_find_entry1: from the second slot of the probe sequence on. */
    method FindEntry1(hash: nat, key: Ptr) returns (found: bool, at: nat, probe: nat)
      requires Valid() && hash == HashFor(cb, key)
      requires NoneBefore(cb, slots[..], hash, key, 1) && Carried(slots[..], Entry(key, NULL, hash), 1)
      ensures at < slots.Length
      ensures found ==> Full(slots[at]) && KeyEq(cb, key, slots[at].key)
      ensures !found ==> !HasKey(cb, Contents(), key)
      ensures !found ==> Carried(slots[..], Entry(key, NULL, hash), probe)
    {
      hide Lawful, BagOk, Ordered, IsSize, NoneBefore, Probe, ProbeOf, HasKey, Elements, HashFor, KeyEq, Home, Offset;
      ghost var s := slots[..];
      var n := slots.Length;
      HasEmpty(cb, s);
      probe := 1;
      while true
        invariant 1 <= probe < n
        invariant Carried(s, Entry(key, NULL, hash), probe)
        invariant NoneBefore(cb, s, hash, key, probe)
        decreases n - probe
      {
        ProbeIsWrap(hash, probe, n);
        at := Probe(hash, probe, n);
        if !Full(slots[at]) {
          AbsentAt(cb, s, hash, key, probe);
          return false, at, probe;
        }
        if slots[at].hash == hash && KeyEq(cb, key, slots[at].key) {
          return true, at, probe;
        }
        ProbeOfIsOffset(at, slots[at].hash, n);
        if ProbeOf(at, slots[at].hash, n) < probe {
          AbsentAt(cb, s, hash, key, probe);
          return false, at, probe;
        }
        NoneBeforeNext(cb, s, hash, key, probe, at);
        PassKeepsCarried(s, Entry(key, NULL, hash), probe, at);
        probe := probe + 1;
      }
    }

    /** aws_hash_table_find: the slot of the entry under an equal key, if there is one. */
    method Find(key: Ptr) returns (slot: Option<nat>)
      requires Valid()
      ensures slot.Some? <==> HasKey(cb, Contents(), key)
      ensures slot.Some? ==> slot.value < slots.Length && slots[slot.value] in Contents()
                             && KeyEq(cb, key, slots[slot.value].key)
    {
      var found, at, _ := FindEntry(HashFor(cb, key), key);
      slot := if found then Some(at) else None;
      assert found ==> slots[at] in Contents();
    }

    /** s_expand_table. */
    method ExpandTable() returns (ok: bool)
      requires Valid()
      modifies this
      ensures Valid() && entryCount == old(entryCount) && Contents() == old(Contents())
      ensures ok <==> SizeFor(2 * old(slots.Length)).Some?
      ensures ok ==> fresh(slots) && slots.Length == 2 * old(slots.Length) && entryCount < maxLoad
      ensures !ok ==> slots == old(slots) && maxLoad == old(maxLoad)
    {
      hide Lawful, Ordered, IsSize, KeysDistinct, Zeroed, Elements, FullPart, SizeFor;
      var size := SizeFor(2 * slots.Length);
      if size.None? {
        return false;
      }
      DoubledSize(slots.Length);
      var n := slots.Length;
      ghost var s := slots[..];
      var bigger := new Entry[size.value](_ => EMPTY);
      AllEmpty(cb, bigger[..]);
      PrefixBag(cb, s, 0);
      for i := 0 to n
        invariant bigger.Length == 2 * n && slots == old(slots) && slots[..] == s && entryCount == old(entryCount)
        invariant Ordered(bigger[..]) && CodesRight(cb, multiset(bigger[..]))
        invariant FullPart(multiset(bigger[..])) == FullPart(multiset(s[..i]))
      {
        PrefixBag(cb, s, i);
        if Full(slots[i]) {
          RoomLeft(multiset(bigger[..]), multiset(s[..i]));
          ghost var before := multiset(bigger[..]);
          var _ := Emplace(bigger, slots[i], 0);
          GrowFullPart(cb, before, multiset(bigger[..]), s[i]);
        }
      }
      assert s[..n] == s;
      assert |multiset(s)| == n && |multiset(bigger[..])| == 2 * n;
      RoomLeft(multiset(bigger[..]), multiset(s));
      ghost var b := bigger[..];
      SameFullPart(cb, multiset(s), multiset(b));
      slots := bigger;
      maxLoad := MaxLoad(size.value);
      assert slots[..] == b;
      ok := true;
    }

    /** s_emplace_item: put the entry down at its probe-th slot or further on, displacing richer occupants. */
    static method Emplace(slots: array<Entry>, entry: Entry, probe: nat) returns (at: Option<nat>)
      requires IsSize(slots.Length) && Ordered(slots[..]) && EMPTY in multiset(slots[..])
      requires Zeroed(multiset(slots[..]))
      requires Full(entry) ==> Carried(slots[..], entry, probe)
      modifies slots
      ensures !Full(entry) ==> at.None? && slots[..] == old(slots[..])
      ensures Full(entry) ==> at.Some? && at.value < slots.Length && slots[at.value] == entry
      ensures Full(entry) ==>
                Ordered(slots[..])
                && multiset(slots[..]) + multiset{EMPTY} == old(multiset(slots[..])) + multiset{entry}
    {
      hide Emplacing;
      at := None;
      if !Full(entry) {
        return;
      }
      var n := slots.Length;
      var e, p := entry, probe;
      ghost var hole := EmptySlot(slots[..]);
      ghost var run := Emplacement(entry, Wrap(Home(entry.hash, n) + probe, n), hole, multiset(slots[..]));
      ghost var t := 0;
      EmplaceStart(slots[..], entry, probe, run);
      while Full(e)
        invariant t <= n && Emplacing(slots[..], e, p, t, at, run)
        decreases n - t
      {
        ghost var s := slots[..];
        var i := Probe(e.hash, p, n);
        var victim := slots[i];
        var victimProbe := ProbeOf(i, victim.hash, n);
        EmplaceStep(s, e, p, t, at, run, i);
        if !Full(victim) || victimProbe < p {
          if at.None? {
            at := Some(i);
          }
          slots[i] := e;
          assert slots[..] == s[i := e];
          e := victim;
          p := victimProbe + 1;
        } else {
          p := p + 1;
        }
        t := t + 1;
      }
      EmplaceDone(slots[..], e, p, t, at, run);
    }

    /** aws_hash_table_create: the slot of an equal key, or a new entry with a null value. */
    method Create(key: Ptr) returns (r: Created)
      requires Valid()
      modifies this, slots
      ensures Valid() && (slots == old(slots) || fresh(slots))
      ensures r.Existing? <==> HasKey(cb, old(Contents()), key)
      ensures r.Failed? <==> !HasKey(cb, old(Contents()), key) && old(entryCount) == old(maxLoad)
                             && SizeFor(2 * old(slots.Length)).None?
      ensures !r.Inserted? ==> slots == old(slots) && slots[..] == old(slots[..]) && entryCount == old(entryCount)
      ensures !r.Inserted? ==> Contents() == old(Contents())
      ensures r.Existing? ==> r.slot < slots.Length && Full(slots[r.slot]) && KeyEq(cb, key, slots[r.slot].key)
                              && slots[r.slot] in Contents()
      ensures r.Inserted? ==>
                && r.slot < slots.Length && slots[r.slot] == Entry(key, NULL, HashFor(cb, key))
                && Contents() == old(Contents()) + {slots[r.slot]}
                && entryCount == old(entryCount) + 1
    {
      hide Lawful, Ordered, IsSize, KeysDistinct, Zeroed, Elements, HasKey, SizeFor;
      var hash := HashFor(cb, key);
      var found, at, probe := FindEntry(hash, key);
      if found {
        StoredCode(cb, slots[..], at, key);
        return Existing(at);
      }
      if entryCount + 1 > maxLoad {
        var ok := ExpandTable();
        if !ok {
          return Failed;
        }
        probe := 0;
      }
      ghost var bag := multiset(slots[..]);
      var entry := Entry(key, NULL, hash);
      entryCount := entryCount + 1;
      var where := Emplace(slots, entry, probe);
      InsertBag(cb, bag, multiset(slots[..]), entry);
      r := Inserted(where.value);
    }

    /** aws_hash_table_put; `replaced` is the entry whose key and value are handed to the destructors. */
    method Put(key: Ptr, value: Ptr) returns (ok: bool, replaced: Option<Entry>)
      requires Valid()
      modifies this, slots
      ensures Valid() && (slots == old(slots) || fresh(slots))
      ensures ok ==> Contents() == MapPut(cb, old(Contents()), key, value)
      ensures ok ==> entryCount == old(entryCount) + (if HasKey(cb, old(Contents()), key) then 0 else 1)
      ensures !ok ==> Contents() == old(Contents()) && entryCount == old(entryCount)
      ensures !ok <==> !HasKey(cb, old(Contents()), key) && old(entryCount) == old(maxLoad)
                       && SizeFor(2 * old(slots.Length)).None?
      ensures replaced.Some? <==> HasKey(cb, old(Contents()), key)
      ensures replaced.Some? ==> replaced.value in old(Contents()) && KeyEq(cb, key, replaced.value.key)
    {
      hide Lawful, BagOk, Ordered, IsSize, KeyEq, HasKey, Elements, HashFor, SizeFor, MapPut;
      var r := Create(key);
      if r.Failed? {
        return false, None;
      }
      ghost var s := slots[..];
      replaced := if r.Existing? then Some(slots[r.slot]) else None;
      var entry := Entry(key, value, slots[r.slot].hash);
      PutAt(cb, s, r.slot, key, value);
      if r.Inserted? {
        PutFresh(cb, old(Contents()), s[r.slot], key, value);
      }
      slots[r.slot] := entry;
      assert slots[..] == s[r.slot := entry];
      ok := true;
    }

    /** Writing the value field of an element returned by create or find. */
    method SetValue(slot: nat, value: Ptr)
      requires Valid() && slot < slots.Length && Full(slots[slot])
      modifies slots
      ensures Valid() && slots[slot] == old(slots[slot]).(value := value)
      ensures Contents() == old(Contents()) - {old(slots[slot])} + {slots[slot]}
    {
      hide Lawful, BagOk, Ordered, IsSize;
      ghost var s := slots[..];
      var entry := slots[slot].(value := value);
      StoredAlone(cb, s, slot);
      OverwriteKeepsTable(cb, s, slot, entry);
      slots[slot] := entry;
      assert slots[..] == s[slot := entry];
    }

    /** s_remove_entry: backward shift; returns the last slot touched. */
    method RemoveEntry(slot: nat) returns (last: nat, ghost run: nat)
      requires Valid() && slot < slots.Length && Full(slots[slot])
      modifies this`entryCount, slots
      ensures ShiftRun(old(slots[..]), slot, run)
      ensures Valid() && slots[..] == Shifted(old(slots[..]), slot, run)
      ensures last == Wrap(slot + run, slots.Length)
      ensures Contents() == old(Contents()) - {old(slots[slot])} && entryCount == old(entryCount) - 1
    {
      hide Lawful, BagOk, Ordered, IsSize, ShiftedAt, ShiftRun, Home, ShiftedTo;
      var n := slots.Length;
      ghost var s := slots[..];
      HasEmpty(cb, s);
      run := ShiftRunExists(s, slot);
      ShiftKeepsTable(cb, s, slot, run);
      entryCount := entryCount - 1;
      last := slot;
      ghost var k := 0;
      ShiftedStart(s, slot, run);
      while true
        invariant 0 <= k <= run && last < n && last == Wrap(slot + k, n) && entryCount == old(entryCount) - 1
        invariant ShiftedTo(s, slots[..], slot, k)
        decreases run - k
      {
        ghost var t := slots[..];
        var next := Probe(last, 1, n);
        NextSlot(last, n);
        ShiftedNext(s, t, slot, run, k);
        if !Full(slots[next]) {
          break;
        }
        if Home(slots[next].hash, n) == next {
          break;
        }
        slots[last] := slots[next];
        assert slots[..] == t[last := t[next]];
        last := next;
        k := k + 1;
      }
      ghost var t := slots[..];
      ShiftedEnd(s, t, slot, run, k);
      slots[last] := EMPTY;
      assert slots[..] == t[last := EMPTY];
    }

    /** aws_hash_table_remove; the removed entry goes to the caller or to the destructors. */
    method Remove(key: Ptr) returns (removed: Option<Entry>)
      requires Valid()
      modifies this`entryCount, slots
      ensures Valid()
      ensures Contents() == MapRemove(cb, old(Contents()), key)
      ensures removed.Some? <==> HasKey(cb, old(Contents()), key)
      ensures removed.Some? ==> removed.value in old(Contents()) && KeyEq(cb, key, removed.value.key)
      ensures entryCount == old(entryCount) - (if removed.Some? then 1 else 0)
    {
      hide Lawful, Ordered, IsSize, KeysDistinct, CodesRight;
      ghost var s := slots[..];
      var found, at, _ := FindEntry(HashFor(cb, key), key);
      if !found {
        return None;
      }
      assert s[at] in multiset(s);
      OnlyOneEqual(cb, multiset(s), s[at], key);
      removed := Some(slots[at]);
      assert removed.value in Contents();
      var _, _ := RemoveEntry(at);
    }

    /** aws_hash_table_remove_element: removal through an element returned by create or find. */
    method RemoveElement(slot: nat)
      requires Valid() && slot < slots.Length && Full(slots[slot])
      modifies this`entryCount, slots
      ensures Valid() && Contents() == old(Contents()) - {old(slots[slot])} && entryCount == old(entryCount) - 1
    {
      hide Lawful, BagOk, Ordered, IsSize;
      var _, _ := RemoveEntry(slot);
    }

    /** aws_hash_table_clear; `destroyed` lists the entries handed to the destructors, in slot order. */
    method Clear() returns (destroyed: seq<Entry>)
      requires Valid()
      modifies this`entryCount, slots
      ensures Valid() && Contents() == {} && entryCount == 0
      ensures multiset(destroyed) == multiset(old(Contents()))
    {
      hide Lawful, Ordered, IsSize, KeysDistinct;
      ghost var s := slots[..];
      destroyed := [];
      PrefixBag(cb, s, 0);
      for i := 0 to slots.Length
        invariant slots[..] == s
        invariant multiset(destroyed) == FullPart(multiset(s[..i]))
      {
        PrefixBag(cb, s, i);
        if Full(slots[i]) {
          destroyed := destroyed + [slots[i]];
        }
      }
      assert s[..slots.Length] == s;
      ElementCount(cb, multiset(s));
      forall i | 0 <= i < slots.Length {
        slots[i] := EMPTY;
      }
      entryCount := 0;
      AllEmpty(cb, slots[..]);
    }
  }

  /** aws_hash_table_init: a new table, or an error when the size is not representable. */
  method NewTable(cb: Callbacks, expected: nat) returns (table: HashTable?)
    requires Lawful(cb)
    ensures table == null <==> SizeFor(expected).None?
    ensures table != null ==> table.Valid() && fresh(table) && fresh(table.slots) && table.cb == cb
    ensures table != null ==> table.Contents() == {} && table.entryCount == 0 && table.slots.Length >= expected
  {
    table := null;
    if SizeFor(expected).Some? {
      table := new HashTable(cb, expected);
    }
  }

  // ---------- helpers of the methods ----------

  /** The q-th slot of the probe sequence holds the key. */
  predicate Matches(cb: Callbacks, s: seq<Entry>, hash: nat, key: Ptr, q: nat)
    requires 0 < |s| && q < |s|
  {
    var e := s[Wrap(Home(hash, |s|) + q, |s|)];
    Full(e) && e.hash == hash && KeyEq(cb, key, e.key)
  }

  /** The first slots of the probe sequence do not match. */
  ghost predicate NoneBefore(cb: Callbacks, s: seq<Entry>, hash: nat, key: Ptr, probe: nat)
    requires 0 < |s| && probe <= |s|
  {
    forall q :: 0 <= q < probe ==> !Matches(cb, s, hash, key, q)
  }

  lemma NoneBeforeNext(cb: Callbacks, s: seq<Entry>, hash: nat, key: Ptr, probe: nat, at: nat)
    requires probe < |s| && NoneBefore(cb, s, hash, key, probe) && at == Wrap(Home(hash, |s|) + probe, |s|)
    requires !(Full(s[at]) && s[at].hash == hash && KeyEq(cb, key, s[at].key))
    ensures NoneBefore(cb, s, hash, key, probe + 1)
  {
    hide KeyEq, Home;
  }

  lemma HasEmpty(cb: Callbacks, s: seq<Entry>)
    requires BagOk(cb, multiset(s))
    ensures EMPTY in s
  {
  }

  lemma AbsentAt(cb: Callbacks, s: seq<Entry>, hash: nat, key: Ptr, probe: nat)
    requires Lawful(cb) && TableOk(cb, s) && hash == HashFor(cb, key) && probe < |s|
    requires NoneBefore(cb, s, hash, key, probe)
    requires var j := Wrap(Home(hash, |s|) + probe, |s|); !Full(s[j]) || Dist(s, j) < probe
    ensures !HasKey(cb, Elements(multiset(s)), key)
  {
    if HasKey(cb, Elements(multiset(s)), key) {
      var e :| e in Elements(multiset(s)) && KeyEq(cb, key, e.key);
      var at: nat :| at < |s| && s[at] == e;
      assert e in multiset(s);
      KeyEqIsEquivalence(cb, key, e.key, key);
      assert Matches(cb, s, hash, key, Dist(s, at));
      StopIsSound(s, hash, probe, at);
    }
  }

  lemma AllEmpty(cb: Callbacks, s: seq<Entry>)
    requires |s| > 0 && forall i :: 0 <= i < |s| ==> s[i] == EMPTY
    ensures TableOk(cb, s) && Elements(multiset(s)) == {}
    ensures FullPart(multiset(s)) == multiset{}
  {
    assert s[0] == EMPTY;
    assert forall e :: e in multiset(s) ==> e == EMPTY;
  }

  /** One call of s_emplace_item: what is placed, from which slot, an empty slot ahead, the bag before. */
  datatype Emplacement = Emplacement(entry: Entry, start: nat, hole: nat, bag: multiset<Entry>)

  /** After t slots: what is in the table and what is still to be placed make up the bag and the entry. */
  ghost predicate Conserved(s: seq<Entry>, e: Entry, run: Emplacement) {
    Zeroed(run.bag) && Full(run.entry) && multiset(s) + multiset{e} == run.bag + multiset{run.entry}
  }

  /** An entry still to be placed stands at its p-th slot, t slots on, with the empty slot not yet passed. */
  ghost predicate OnItsWay(s: seq<Entry>, e: Entry, p: nat, t: nat, run: Emplacement) {
    var n := |s|;
    && run.start < n && run.hole < n
    && (Full(e) ==>
          && t <= Offset(run.start, run.hole, n) && s[run.hole] == EMPTY
          && Carried(s, e, p) && Wrap(Home(e.hash, n) + p, n) == Wrap(run.start + t, n))
  }

  /** The entry itself lies behind, once placed. */
  ghost predicate Behind(s: seq<Entry>, e: Entry, t: nat, at: Option<nat>, run: Emplacement) {
    && run.start < |s|
    && (!Full(e) ==> e == EMPTY && at.Some?)
    && (at.None? ==> e == run.entry)
    && (at.Some? ==> at.value < |s| && Offset(run.start, at.value, |s|) < t && s[at.value] == run.entry)
  }

  ghost predicate Emplacing(s: seq<Entry>, e: Entry, p: nat, t: nat, at: Option<nat>, run: Emplacement) {
    IsSize(|s|) && Ordered(s) && Conserved(s, e, run) && OnItsWay(s, e, p, t, run) && Behind(s, e, t, at, run)
  }

  lemma EmplaceStart(s: seq<Entry>, entry: Entry, probe: nat, run: Emplacement)
    requires IsSize(|s|) && Ordered(s) && Zeroed(multiset(s)) && Full(entry) && Carried(s, entry, probe)
    requires run.hole < |s| && s[run.hole] == EMPTY && run.bag == multiset(s) && run.entry == entry
    requires run.start == Wrap(Home(entry.hash, |s|) + probe, |s|)
    ensures Emplacing(s, entry, probe, 0, None, run)
  {
    hide Ordered, IsSize, Zeroed;
  }

  lemma SwapConserves(s: seq<Entry>, e: Entry, run: Emplacement, i: nat)
    requires Conserved(s, e, run) && i < |s|
    ensures Conserved(s[i := e], s[i], run) && (!Full(s[i]) ==> s[i] == EMPTY)
  {
    UpdateBag(s, i, e);
    assert s[i] in multiset(s);
    assert s[i] in run.bag + multiset{run.entry};
  }

  /** The slot reached is t slots on, and not past the empty one. */
  lemma SlotReached(s: seq<Entry>, e: Entry, p: nat, t: nat, run: Emplacement, i: nat)
    requires Full(e) && OnItsWay(s, e, p, t, run) && i == Wrap(Home(e.hash, |s|) + p, |s|)
    ensures i < |s| && t < |s| && Offset(run.start, i, |s|) == t && (i == run.hole <==> t == Offset(run.start, run.hole, |s|))
    ensures Wrap(i + 1, |s|) == Wrap(run.start + t + 1, |s|) && EMPTY in s && s[run.hole] == EMPTY
  {
    hide Home, Carried, Full;
  }

  lemma SwapBehind(s: seq<Entry>, e: Entry, t: nat, at: Option<nat>, run: Emplacement, i: nat)
    requires Full(e) && Behind(s, e, t, at, run) && i < |s| && Offset(run.start, i, |s|) == t && (Full(s[i]) || s[i] == EMPTY)
    ensures Behind(s[i := e], s[i], t + 1, if at.None? then Some(i) else at, run)
  {
    hide Offset, Full;
  }

  /** The entry takes slot i, and its occupant is carried on. */
  lemma EmplaceSwap(s: seq<Entry>, e: Entry, p: nat, t: nat, at: Option<nat>, run: Emplacement, i: nat, d: nat)
    requires 0 < |s| && Full(e) && Emplacing(s, e, p, t, at, run) && i == Wrap(Home(e.hash, |s|) + p, |s|)
    requires !Full(s[i]) || (Dist(s, i) == d && d < p)
    ensures t < |s| && Emplacing(s[i := e], s[i], d + 1, t + 1, if at.None? then Some(i) else at, run)
  {
    hide Ordered, IsSize, Home, Conserved, Behind, Carried, Dist, Offset, Wrap;
    SlotReached(s, e, p, t, run, i);
    SwapConserves(s, e, run, i);
    SwapKeepsOrder(s, e, p, i, s[i := e]);
    SwapBehind(s, e, t, at, run, i);
  }

  /** The occupant of slot i stays, and the entry is carried on. */
  lemma EmplacePass(s: seq<Entry>, e: Entry, p: nat, t: nat, at: Option<nat>, run: Emplacement, i: nat)
    requires 0 < |s| && Full(e) && Emplacing(s, e, p, t, at, run) && i == Wrap(Home(e.hash, |s|) + p, |s|)
    requires Full(s[i]) && p <= Dist(s, i)
    ensures t < |s| && Emplacing(s, e, p + 1, t + 1, at, run)
  {
    hide Ordered, IsSize, Home, Conserved, Carried, Dist, Wrap;
    SlotReached(s, e, p, t, run, i);
    PassKeepsCarried(s, e, p, i);
  }

  /** One iteration, in either branch, at slot i of the probe sequence. */
  lemma EmplaceStep(s: seq<Entry>, e: Entry, p: nat, t: nat, at: Option<nat>, run: Emplacement, i: nat)
    requires 0 < |s| && Full(e) && Emplacing(s, e, p, t, at, run) && i == Probe(e.hash, p, |s|)
    ensures t < |s|
    ensures var d := ProbeOf(i, s[i].hash, |s|);
      if !Full(s[i]) || d < p then
        Emplacing(s[i := e], s[i], d + 1, t + 1, if at.None? then Some(i) else at, run)
      else
        Emplacing(s, e, p + 1, t + 1, at, run)
  {
    assert IsSize(|s|) && p < |s|;
    hide Emplacing, IsSize, Probe, ProbeOf, Home;
    ProbeIsWrap(e.hash, p, |s|);
    ProbeOfIsOffset(i, s[i].hash, |s|);
    if !Full(s[i]) || Dist(s, i) < p {
      EmplaceSwap(s, e, p, t, at, run, i, ProbeOf(i, s[i].hash, |s|));
    } else {
      EmplacePass(s, e, p, t, at, run, i);
    }
  }

  lemma EmplaceDone(s: seq<Entry>, e: Entry, p: nat, t: nat, at: Option<nat>, run: Emplacement)
    requires Emplacing(s, e, p, t, at, run) && !Full(e)
    ensures at.Some? && at.value < |s| && s[at.value] == run.entry && Ordered(s)
    ensures multiset(s) + multiset{EMPTY} == run.bag + multiset{run.entry}
  {
  }

  lemma NextSlot(i: nat, n: nat)
    requires IsSize(n) && n >= 2 && i < n
    ensures Probe(i, 1, n) == Wrap(i + 1, n)
  {
    ProbeIsWrap(i, 1, n);
    ModUnique(i, n, 0, i);
  }

  lemma EmptySlot(s: seq<Entry>) returns (i: nat)
    requires EMPTY in multiset(s)
    ensures i < |s| && s[i] == EMPTY
  {
    i :| 0 <= i < |s| && s[i] == EMPTY;
  }

  /** The full entries of one more slot. */
  lemma PrefixBag(cb: Callbacks, s: seq<Entry>, i: nat)
    requires i < |s| && CodesRight(cb, multiset(s))
    ensures Full(s[i]) ==> s[i].hash == HashFor(cb, s[i].key)
    ensures FullPart(multiset(s[..i + 1])) ==
            FullPart(multiset(s[..i])) + (if Full(s[i]) then multiset{s[i]} else multiset{})
    ensures FullPart(multiset(s[..0])) == multiset{}
  {
    assert s[..i + 1] == s[..i] + [s[i]];
    assert s[i] in multiset(s);
  }

  lemma GrowFullPart(cb: Callbacks, m: multiset<Entry>, m': multiset<Entry>, e: Entry)
    requires CodesRight(cb, m) && Full(e) && e.hash == HashFor(cb, e.key)
    requires m' + multiset{EMPTY} == m + multiset{e}
    ensures CodesRight(cb, m') && FullPart(m') == FullPart(m) + multiset{e}
  {
    forall x
      ensures m'[x] + (if x == EMPTY then 1 else 0) == m[x] + (if x == e then 1 else 0)
    {
      ReplaceCount(m, EMPTY, e, m', x);
    }
  }

  lemma StoredCode(cb: Callbacks, s: seq<Entry>, at: nat, key: Ptr)
    requires Lawful(cb) && TableOk(cb, s) && at < |s| && Full(s[at])
    requires KeyEq(cb, key, s[at].key)
    ensures s[at].hash == HashFor(cb, key)
    ensures s[at] in Elements(multiset(s)) && HasKey(cb, Elements(multiset(s)), key)
  {
    assert s[at] in multiset(s);
    KeyEqIsEquivalence(cb, key, s[at].key, key);
  }

  /** Overwriting the slot that holds an equal key, or the key just created. */
  lemma PutAt(cb: Callbacks, s: seq<Entry>, at: nat, key: Ptr, value: Ptr)
    requires Lawful(cb) && TableOk(cb, s) && at < |s| && Full(s[at])
    requires KeyEq(cb, key, s[at].key) || s[at].key == key
    ensures var s' := s[at := Entry(key, value, s[at].hash)];
            && TableOk(cb, s') && Elements(multiset(s')) == MapPut(cb, Elements(multiset(s)), key, value)
            && |Elements(multiset(s'))| == |Elements(multiset(s))|
  {
    KeyEqIsEquivalence(cb, key, key, key);
    hide TableOk, Lawful, KeyEq, MapPut, Elements;
    StoredCode(cb, s, at, key);
    OverwriteKeepsTable(cb, s, at, Entry(key, value, s[at].hash));
  }

  lemma StoredAlone(cb: Callbacks, s: seq<Entry>, at: nat)
    requires Lawful(cb) && TableOk(cb, s) && at < |s| && Full(s[at])
    ensures KeyEq(cb, s[at].key, s[at].key) && s[at].hash == HashFor(cb, s[at].key)
    ensures MapRemove(cb, Elements(multiset(s)), s[at].key) == Elements(multiset(s)) - {s[at]}
  {
    assert s[at] in multiset(s);
    KeyEqIsEquivalence(cb, s[at].key, s[at].key, NULL);
    OnlyOneEqual(cb, multiset(s), s[at], s[at].key);
  }

  /** Binding a key that was just added unbound is putting it. */
  lemma PutFresh(cb: Callbacks, m: set<Entry>, e: Entry, key: Ptr, value: Ptr)
    requires !HasKey(cb, m, key) && e.key == key
    ensures MapPut(cb, m + {e}, key, value) == MapPut(cb, m, key, value)
  {
  }

  /** After k moves t is the shifted array, up to the stale copy left in the hole. */
  ghost predicate ShiftedTo(s: seq<Entry>, t: seq<Entry>, i: nat, k: nat) {
    && i < |s| && |t| == |s| && k + 1 < |s|
    && t[Wrap(i + k, |s|) := EMPTY] == Shifted(s, i, k)
  }

  lemma ShiftedStart(s: seq<Entry>, i: nat, run: nat)
    requires i < |s| && ShiftRun(s, i, run)
    ensures run + 1 < |s| && ShiftedTo(s, s, i, 0)
  {
  }

  /** The slot after the hole is untouched; it is away from home exactly while the run lasts, and then moving it is one shift. */
  lemma ShiftedNext(s: seq<Entry>, t: seq<Entry>, i: nat, run: nat, k: nat)
    requires ShiftedTo(s, t, i, k) && ShiftRun(s, i, run) && k <= run
    ensures var hole, next := Wrap(i + k, |s|), Wrap(Wrap(i + k, |s|) + 1, |s|);
      && next == Wrap(i + k + 1, |s|) && t[next] == s[next]
      && (Full(t[next]) && Home(t[next].hash, |s|) != next <==> k < run)
      && (k < run ==> ShiftedTo(s, t[hole := t[next]], i, k + 1))
  {
    hide ShiftedAt;
    var hole, next := Wrap(i + k, |s|), Wrap(i + k + 1, |s|);
    assert Offset(i, next, |s|) == k + 1;
    ShiftedStep(s, i, k);
    assert t[next] == t[hole := EMPTY][next];
    assert Away(s, next) <==> Full(s[next]) && Home(s[next].hash, |s|) != next;
    assert t[hole := t[next]][next := EMPTY] == t[hole := EMPTY][hole := s[next]][next := EMPTY];
  }

  lemma ShiftedEnd(s: seq<Entry>, t: seq<Entry>, i: nat, run: nat, k: nat)
    requires ShiftedTo(s, t, i, k) && ShiftRun(s, i, run) && k == run
    ensures t[Wrap(i + k, |s|) := EMPTY] == Shifted(s, i, run)
  {
  }

  lemma EmptyStops(s: seq<Entry>) returns (z: nat)
    requires EMPTY in s
    ensures z < |s| && s[z] == EMPTY && !Away(s, z)
  {
    z :| z < |s| && s[z] == EMPTY;
  }

  /** The k slots behind slot i are filled and away from home. */
  ghost predicate AwayTo(s: seq<Entry>, i: nat, k: nat)
    requires i < |s|
  {
    forall j :: 0 <= j < |s| && 1 <= Offset(i, j, |s|) <= k ==> Away(s, j)
  }

  lemma AwayNext(s: seq<Entry>, i: nat, k: nat)
    requires i < |s| && k + 1 < |s| && AwayTo(s, i, k) && Away(s, Wrap(i + k + 1, |s|))
    ensures AwayTo(s, i, k + 1)
  {
    hide Away;
    forall j | 0 <= j < |s| && 1 <= Offset(i, j, |s|) <= k + 1
      ensures Away(s, j)
    {
      assert Offset(i, j, |s|) == k + 1 ==> j == Wrap(i + k + 1, |s|);
    }
  }

  /** An empty slot bounds every shift. */
  lemma ShiftRunExists(s: seq<Entry>, i: nat) returns (k: nat)
    requires EMPTY in s && i < |s| && Full(s[i])
    ensures ShiftRun(s, i, k)
  {
    hide Away;
    var z := EmptyStops(s);
    var o := Offset(i, z, |s|);
    k := 0;
    while Away(s, Wrap(i + k + 1, |s|))
      invariant k < o && AwayTo(s, i, k)
      decreases o - k
    {
      AwayNext(s, i, k);
      k := k + 1;
    }
  }
}
