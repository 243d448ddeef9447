/**
  Iteration over the hash table of source/hash_table.c, with deletion during
  the walk, and the comparison of two tables.
 */
module HashIteration {
  import opened PowersOfTwo
  import opened RobinHood
  import opened EntryMaps
  import opened HashTables

  datatype Status = Done | DeleteCalled | ReadyForUse

  /** What a foreach callback does: the three bits of its result, and the value it leaves in the element it was given. */
  datatype Verdict = Verdict(error: bool, delete: bool, continue_: bool, value: Ptr)

  /** The full entries of slots lo up to hi. */
  ghost function Window(s: seq<Entry>, lo: nat, hi: nat): set<Entry>
    requires hi <= |s|
  {
    set j | lo <= j < hi && Full(s[j]) :: s[j]
  }

  lemma WindowEmpty(s: seq<Entry>, lo: nat, hi: nat)
    requires hi <= |s| && hi <= lo
    ensures Window(s, lo, hi) == {}
  {
  }

  /** A full slot is in the window; an empty one can be left out. */
  lemma WindowNext(s: seq<Entry>, i: nat, hi: nat)
    requires i < hi <= |s|
    ensures if Full(s[i]) then s[i] in Window(s, i, hi) else Window(s, i, hi) == Window(s, i + 1, hi)
  {
  }

  lemma WindowIsElements(s: seq<Entry>)
    ensures Window(s, 0, |s|) == Elements(multiset(s))
  {
  }

  /** A stored entry sits in one slot only. */
  lemma {:induction false} OneSlot(s: seq<Entry>, i: nat, j: nat)
    requires i < j < |s| && s[i] == s[j]
    ensures multiset(s)[s[i]] >= 2
  {
    assert s == s[..j] + [s[j]] + s[j + 1..];
    assert s[i] in multiset(s[..j]) by {
      assert s[..j][i] == s[i];
    }
  }

  lemma NotInRest(cb: Callbacks, s: seq<Entry>, i: nat, hi: nat)
    requires BagOk(cb, multiset(s)) && i < hi <= |s| && Full(s[i])
    ensures Window(s, i, hi) - {s[i]} == Window(s, i + 1, hi)
  {
    forall j | i < j < |s| && s[i] == s[j]
      ensures false
    {
      OneSlot(s, i, j);
    }
  }

  /** The last slot a deletion touches is the deleted one exactly when the next slot is empty or holds an entry at home. */
  lemma LastIsSlotIff(s: seq<Entry>, i: nat, run: nat)
    requires i < |s| && ShiftRun(s, i, run)
    ensures Wrap(i + run, |s|) == i <==> !Away(s, Wrap(i + 1, |s|))
  {
    hide Away;
    assert run > 0 ==> Offset(i, Wrap(i + 1, |s|), |s|) == 1;
  }

  /** As with a single entry in its home slot. */
  lemma LastIsSlot()
    ensures var s := [Entry(1, 1, 2), EMPTY];
            Full(s[0]) && Ordered(s) && ShiftRun(s, 0, 0) && Wrap(0 + 0, |s|) == 0 && Shifted(s, 0, 0) == [EMPTY, EMPTY]
  {
    var s := [Entry(1, 1, 2), EMPTY];
    assert Local(s, 0) && Local(s, 1);
  }

  /** Deleting slot i leaves the unvisited window unchanged, once the limit makes up for a visited entry shifted into it. */
  lemma WindowAfterDelete(s: seq<Entry>, i: nat, run: nat, limit: nat)
    requires i < limit <= |s| && ShiftRun(s, i, run)
    ensures
      var last := Wrap(i + run, |s|);
      var limit' := if last < i || last >= limit then limit - 1 else limit;
      Window(Shifted(s, i, run), i, limit') == Window(s, i + 1, limit)
  {
    var t, last := Shifted(s, i, run), Wrap(i + run, |s|);
    var limit' := if last < i || last >= limit then limit - 1 else limit;
    forall e | e in Window(s, i + 1, limit)
      ensures e in Window(t, i, limit')
    {
      var j :| i + 1 <= j < limit && Full(s[j]) && s[j] == e;
      if j - i <= run {
        assert t[j - 1] == s[j];
      } else {
        assert t[j] == s[j];
      }
    }
    forall e | e in Window(t, i, limit')
      ensures e in Window(s, i + 1, limit)
    {
      var j :| i <= j < limit' && Full(t[j]) && t[j] == e;
      if j - i < run {
        assert t[j] == s[j + 1];
      } else {
        assert t[j] == s[j];
      }
    }
  }

  /** The slot before: below slot 0 the index wraps. */
  function Back(slot: nat): nat {
    (slot - 1) % TWO64
  }

  function Forward(slot: nat): nat {
    (slot + 1) % TWO64
  }

  /** Stepping back from slot 0 wraps; stepping forward again undoes it. */
  lemma StepBack(slot: nat)
    requires slot < TWO64
    ensures Back(slot) == (if slot == 0 then TWO64 - 1 else slot - 1) && Forward(Back(slot)) == slot
  {
  }

  lemma TableBag(table: HashTable)
    requires table.Valid()
    ensures BagOk(table.cb, multiset(table.slots[..])) && table.slots.Length < TWO64
  {
    hide BagOk, Lawful, Ordered, IsSize;
  }

  class HashIter {
    const table: HashTable
    var element: Entry
    var slot: nat
    var limit: nat
    var status: Status

    /** aws_hash_iter_is_valid. */
    ghost predicate Valid()
      reads this, table, table.slots
      ensures Valid() ==> table.Valid() && limit <= table.slots.Length
    {
      && table.Valid()
      && limit <= table.slots.Length
      && match status
         case Done => slot == limit
         case DeleteCalled => slot <= limit || slot == TWO64 - 1
         case ReadyForUse => slot < limit && Full(table.slots[slot])
    }

    /** The entry in the iterator's slot, of which element is a copy. */
    ghost function Current(): Entry
      reads this, table, table.slots
    {
      if slot < table.slots.Length then table.slots[slot] else EMPTY
    }

    /** The entries the iterator has yet to show, the current one included. */
    ghost function Todo(): set<Entry>
      requires limit <= table.slots.Length
      reads this, table, table.slots
    {
      match status
      case Done => {}
      case DeleteCalled => Window(table.slots[..], Forward(slot), limit)
      case ReadyForUse => Window(table.slots[..], slot, limit)
    }

    /** s_get_next_element. */
    method GetNextElement(start: nat)
      requires table.Valid() && limit <= table.slots.Length
      modifies this
      ensures Valid() && status != DeleteCalled && limit == old(limit)
      ensures Todo() == Window(table.slots[..], start, limit)
      ensures status == ReadyForUse ==> element == Current() && element in Todo()
    {
      hide HashTable.Valid, Window;
      ghost var s := table.slots[..];
      var i := start;
      while i < limit
        invariant limit == old(limit) && i >= start
        invariant Window(s, start, limit) == Window(s, i, limit)
      {
        WindowNext(s, i, limit);
        if Full(table.slots[i]) {
          element, slot, status := table.slots[i], i, ReadyForUse;
          return;
        }
        i := i + 1;
      }
      WindowEmpty(s, i, limit);
      element, slot, status := EMPTY, limit, Done;
    }

    /** aws_hash_iter_begin. */
    constructor (table: HashTable)
      requires table.Valid()
      ensures Valid() && this.table == table && status != DeleteCalled
      ensures Todo() == table.Contents()
      ensures status == ReadyForUse ==> element == Current() && element in Todo()
    {
      this.table := table;
      limit := table.slots.Length;
      element, slot, status := EMPTY, 0, Done;
      new;
      WindowIsElements(table.slots[..]);
      GetNextElement(0);
    }

    /** aws_hash_iter_done: slot is compared with ==, as it may have wrapped below 0. */
    predicate IsDone()
      requires Valid() && status != DeleteCalled
      reads this, table, table.slots
      ensures IsDone() <==> status == Done
    {
      slot == limit
    }

    /** aws_hash_iter_next. */
    method Next()
      requires Valid()
      modifies this
      ensures Valid() && status != DeleteCalled
      ensures Todo() == if old(status) == ReadyForUse then old(Todo()) - {old(Current())} else old(Todo())
      ensures status == ReadyForUse ==> element == Current() && element in Todo()
    {
      hide Lawful, BagOk, Ordered, IsSize, Window;
      if status == ReadyForUse {
        NotInRest(table.cb, table.slots[..], slot, limit);
      } else if status == Done {
        WindowEmpty(table.slots[..], limit + 1, limit);
      }
      GetNextElement(Forward(slot));
    }

    /** A callback's write to the value field of the iterator's own copy. */
    method WriteCopy(value: Ptr)
      requires Valid()
      modifies this`element
      ensures Valid() && element == old(element).(value := value)
      ensures Current() == old(Current()) && Todo() == old(Todo())
    {
      hide HashTable.Valid, Window;
      element := element.(value := value);
    }

    /** aws_hash_iter_delete. */
    method Delete()
      requires Valid() && status == ReadyForUse
      modifies this, table`entryCount, table.slots
      ensures Valid() && status == DeleteCalled
      ensures table.Contents() == old(table.Contents()) - {old(Current())}
      ensures Todo() == old(Todo()) - {old(Current())}
    {
      hide HashTable.Valid, HashTable.Contents, ShiftRun, ShiftedAt, Shifted, BagOk, Window, Wrap, Back, Forward;
      ghost var s := table.slots[..];
      TableBag(table);
      NotInRest(table.cb, s, slot, limit);
      var last, run := table.RemoveEntry(slot);
      WindowAfterDelete(s, slot, run, limit);
      if last < slot || last >= limit {
        limit := limit - 1;
      }
      StepBack(slot);
      slot := Back(slot);
      status := DeleteCalled;
    }

    /** One turn of the foreach loop, from the callback's return on. */
    method Turn(v: Verdict)
      requires Valid() && status == ReadyForUse
      modifies this, table`entryCount, table.slots
      ensures Valid()
      ensures table.Contents() == if Kept(v) then old(table.Contents()) else old(table.Contents()) - {old(Current())}
      ensures v.continue_ && !v.error ==> status != DeleteCalled && Todo() == old(Todo()) - {old(Current())}
      ensures v.continue_ && !v.error && status == ReadyForUse ==> element == Current() && element in Todo()
    {
      hide HashTable.Valid, Valid, HashTable.Contents, Current, Todo;
      WriteCopy(v.value);
      if v.error {
        return;
      }
      if v.delete {
        Delete();
      }
      if v.continue_ {
        Next();
      }
    }
  }

  predicate Kept(v: Verdict) {
    v.error || !v.delete
  }

  ghost function Deleted(visited: seq<Entry>, decide: (nat, Entry) -> Verdict): set<Entry> {
    set j | 0 <= j < |visited| && !decide(j, visited[j]).error && decide(j, visited[j]).delete :: visited[j]
  }

  ghost function Items(visited: seq<Entry>): set<Entry> {
    set e | e in visited
  }

  lemma VisitOne(visited: seq<Entry>, e: Entry, decide: (nat, Entry) -> Verdict)
    ensures Items(visited + [e]) == Items(visited) + {e}
    ensures var v := decide(|visited|, e);
      Deleted(visited + [e], decide) == Deleted(visited, decide) + (if !v.error && v.delete then {e} else {})
  {
    var w := visited + [e];
    assert w[|visited|] == e;
    forall x | x in Deleted(visited, decide)
      ensures x in Deleted(w, decide)
    {
      var j :| 0 <= j < |visited| && !decide(j, visited[j]).error && decide(j, visited[j]).delete && visited[j] == x;
      assert w[j] == visited[j];
    }
  }

  /** The walk so far: each entry seen once and kept or deleted as told, the rest of the map still to come. */
  ghost predicate Walk(start: set<Entry>, visited: seq<Entry>, decide: (nat, Entry) -> Verdict,
                       now: set<Entry>, todo: set<Entry>)
  {
    && Items(visited) !! todo && Items(visited) + todo == start
    && (forall i, j :: 0 <= i < j < |visited| ==> visited[i] != visited[j])
    && now == start - Deleted(visited, decide)
  }

  lemma WalkStart(start: set<Entry>, decide: (nat, Entry) -> Verdict)
    ensures Walk(start, [], decide, start, start) && AllContinue([], decide)
  {
  }

  lemma WalkEnd(start: set<Entry>, visited: seq<Entry>, decide: (nat, Entry) -> Verdict, now: set<Entry>)
    requires Walk(start, visited, decide, now, {}) && AllContinue(visited, decide)
    ensures Ends(start, visited, decide, true)
  {
  }

  lemma WalkOne(start: set<Entry>, visited: seq<Entry>, decide: (nat, Entry) -> Verdict,
                now: set<Entry>, todo: set<Entry>, e: Entry)
    requires Walk(start, visited, decide, now, todo) && e in todo
    ensures var v := decide(|visited|, e);
      Walk(start, visited + [e], decide, if Kept(v) then now else now - {e}, todo - {e})
  {
    VisitOne(visited, e, decide);
    forall i | 0 <= i < |visited|
      ensures visited[i] != e
    {
      assert visited[i] in Items(visited);
    }
  }

  /** The callback let the walk go on after each of these visits. */
  ghost predicate AllContinue(visited: seq<Entry>, decide: (nat, Entry) -> Verdict) {
    forall j :: 0 <= j < |visited| ==> decide(j, visited[j]).continue_ && !decide(j, visited[j]).error
  }

  lemma ContinueOne(visited: seq<Entry>, decide: (nat, Entry) -> Verdict, e: Entry)
    requires AllContinue(visited, decide)
    ensures var v := decide(|visited|, e);
      AllContinue(visited + [e], decide) <==> v.continue_ && !v.error
  {
    var w := visited + [e];
    assert forall j :: 0 <= j < |visited| ==> w[j] == visited[j];
    assert w[|visited|] == e;
  }

  /** When and how a walk ends: at the end of the map, or with the first visit that does not go on. */
  ghost predicate Ends(start: set<Entry>, visited: seq<Entry>, decide: (nat, Entry) -> Verdict, ok: bool) {
    && (AllContinue(visited, decide) ==> Items(visited) == start && ok)
    && (!AllContinue(visited, decide) ==>
          |visited| > 0 && AllContinue(visited[..|visited| - 1], decide)
          && ok == !decide(|visited| - 1, visited[|visited| - 1]).error)
  }

  /** aws_hash_table_foreach: the callback is any function of the visit number and the element shown. */
  method Foreach(table: HashTable, decide: (nat, Entry) -> Verdict)
    returns (ok: bool, visited: seq<Entry>, ghost rest: set<Entry>)
    requires table.Valid()
    modifies table`entryCount, table.slots
    ensures table.Valid()
    ensures Walk(old(table.Contents()), visited, decide, table.Contents(), rest)
    ensures Ends(old(table.Contents()), visited, decide, ok)
    ensures IsMap(table.cb, old(table.Contents()))
  {
    hide HashTable.Valid, HashIter.Valid, HashTable.Contents, HashIter.Current, HashIter.Todo, Walk, AllContinue, Ends, IsMap, Kept;
    WalkStart(table.Contents(), decide);
    TableMap(table);
    ghost var start := table.Contents();
    var iter := new HashIter(table);
    visited, ok, rest := [], true, iter.Todo();
    while !iter.IsDone()
      invariant iter.Valid() && iter.table == table && iter.status != DeleteCalled && table.slots == old(table.slots)
      invariant iter.status == ReadyForUse ==> iter.element == iter.Current() && iter.element in rest
      invariant rest == iter.Todo() && Walk(start, visited, decide, table.Contents(), rest) && AllContinue(visited, decide)
      decreases rest
    {
      var e := iter.element;
      var v := decide(|visited|, e);
      WalkOne(start, visited, decide, table.Contents(), rest, e);
      StepEnds(start, visited, decide, e);
      visited, rest := visited + [e], rest - {e};
      iter.Turn(v);
      if v.error || !v.continue_ {
        ok := !v.error;
        IterTable(iter);
        return;
      }
    }
    IterTable(iter);
    WalkEnd(start, visited, decide, table.Contents());
  }

  /** A visit that goes on, or with which the walk ends. */
  lemma StepEnds(start: set<Entry>, visited: seq<Entry>, decide: (nat, Entry) -> Verdict, e: Entry)
    requires AllContinue(visited, decide)
    ensures var v := decide(|visited|, e);
            if v.continue_ && !v.error then AllContinue(visited + [e], decide)
            else Ends(start, visited + [e], decide, !v.error)
  {
    hide AllContinue;
    ContinueOne(visited, decide, e);
    var w := visited + [e];
    assert w[..|w| - 1] == visited && w[|w| - 1] == e;
  }

  lemma IterTable(iter: HashIter)
    requires iter.Valid()
    ensures iter.table.Valid() && (iter.status == Done ==> iter.Todo() == {})
  {
    hide HashTable.Valid;
  }

  // ---------- what the documentation says of a callback ----------

  /**
    A callback's write through the element reaches the table if and only if it
    changes nothing: after any walk, a visited entry that was kept is bound to
    what the callback wrote exactly when that is the value it had.
   */
  lemma WriteReachesIff(cb: Callbacks, start: set<Entry>, visited: seq<Entry>, decide: (nat, Entry) -> Verdict,
                        now: set<Entry>, rest: set<Entry>, i: nat)
    requires Lawful(cb) && IsMap(cb, start) && Walk(start, visited, decide, now, rest)
    requires i < |visited| && Kept(decide(i, visited[i]))
    ensures Binds(cb, now, visited[i].key, visited[i].value)
    ensures Binds(cb, now, visited[i].key, decide(i, visited[i]).value) <==> decide(i, visited[i]).value == visited[i].value
  {
    var e, written := visited[i], decide(i, visited[i]).value;
    assert e in Items(visited);
    assert e in now;
    KeyEqIsEquivalence(cb, e.key, e.key, e.key);
    if Binds(cb, now, e.key, written) {
      var x :| x in now && KeyEq(cb, e.key, x.key) && x.value == written;
      assert x == e;
    }
  }

  function Writing(value: Ptr): (nat, Entry) -> Verdict {
    (i: nat, e: Entry) => Verdict(false, false, true, value)
  }

  /** On a table of one entry, a callback that writes another value changes nothing. */
  lemma WriteIsLost(cb: Callbacks, e: Entry, value: Ptr, visited: seq<Entry>, now: set<Entry>, rest: set<Entry>, ok: bool)
    requires Lawful(cb) && IsMap(cb, {e}) && value != e.value
    requires Walk({e}, visited, Writing(value), now, rest) && Ends({e}, visited, Writing(value), ok)
    ensures ok && visited == [e] && now == {e} && !Binds(cb, now, e.key, value)
  {
    assert AllContinue(visited, Writing(value));
    assert Items(visited) == {e};
    assert e in Items(visited);
    forall x
      ensures x in visited <==> x == e
    {
      assert x in Items(visited) <==> x in visited;
    }
    OneItem(visited, e);
    WriteReachesIff(cb, {e}, visited, Writing(value), now, rest, 0);
  }

  lemma OneItem(visited: seq<Entry>, e: Entry)
    requires (forall x :: x in visited <==> x == e) && forall i, j :: 0 <= i < j < |visited| ==> visited[i] != visited[j]
    ensures visited == [e]
  {
    assert forall i :: 0 <= i < |visited| ==> visited[i] in visited;
    assert |visited| > 0 by {
      assert e in visited;
    }
    assert visited[0] == e;
    if |visited| > 1 {
      FirstTwo(visited);
    }
  }

  lemma FirstTwo(visited: seq<Entry>)
    requires |visited| > 1 && forall i, j :: 0 <= i < j < |visited| ==> visited[i] != visited[j]
    ensures visited[0] != visited[1]
  {
  }

  function Deleting(): (nat, Entry) -> Verdict {
    (i: nat, e: Entry) => Verdict(false, true, false, e.value)
  }

  lemma NoneContinue(visited: seq<Entry>)
    ensures AllContinue(visited, Deleting()) ==> visited == []
  {
    if visited != [] {
      assert !Deleting()(0, visited[0]).continue_;
    }
  }

  /** On a table of two entries, a callback that only asks for deletion stops the walk: one entry goes, the other is not seen. */
  lemma DeleteStops(a: Entry, b: Entry, visited: seq<Entry>, now: set<Entry>, rest: set<Entry>, ok: bool)
    requires a != b && Walk({a, b}, visited, Deleting(), now, rest) && Ends({a, b}, visited, Deleting(), ok)
    ensures ok && (visited == [a] || visited == [b]) && now == rest == {a, b} - {visited[0]}
  {
    assert visited != [] by {
      assert a in Items(visited) + rest;
      assert visited == [] ==> Items(visited) == {};
    }
    NoneContinue(visited);
    NoneContinue(visited[..|visited| - 1]);
    assert visited[0] in Items(visited);
    assert Deleted(visited, Deleting()) == {visited[0]};
    assert visited == [visited[0]];
  }

  // ---------- comparison ----------

  /** Every key of a is a key of b. */
  ghost predicate KeysWithin(cb: Callbacks, a: set<Entry>, b: set<Entry>) {
    forall e :: e in a ==> HasKey(cb, b, e.key)
  }

  /** The entry has a partner in b: an equal key with an equal value. */
  ghost predicate Matched(cb: Callbacks, valueEq: (Ptr, Ptr) -> bool, e: Entry, b: set<Entry>) {
    exists f :: f in b && KeyEq(cb, e.key, f.key) && SafeEq(valueEq, e.value, f.value)
  }

  /** The two maps have equal keys, and equal values under each. */
  ghost predicate SameMap(cb: Callbacks, valueEq: (Ptr, Ptr) -> bool, a: set<Entry>, b: set<Entry>) {
    && (forall k :: HasKey(cb, a, k) <==> HasKey(cb, b, k))
    && (forall e, f :: e in a && f in b && KeyEq(cb, e.key, f.key) ==> SafeEq(valueEq, e.value, f.value))
  }

  lemma KeyHolder(cb: Callbacks, m: set<Entry>, key: Ptr) returns (e: Entry)
    requires HasKey(cb, m, key)
    ensures e in m && KeyEq(cb, key, e.key)
  {
    e :| e in m && KeyEq(cb, key, e.key);
  }

  lemma HasKeyOf(cb: Callbacks, m: set<Entry>, key: Ptr, e: Entry)
    requires e in m && KeyEq(cb, key, e.key)
    ensures HasKey(cb, m, key)
  {
  }

  /** Removing a matched pair of entries leaves the other keys within. */
  lemma KeysWithinRest(cb: Callbacks, a: set<Entry>, b: set<Entry>, e: Entry, f: Entry)
    requires Lawful(cb) && IsMap(cb, a) && KeysWithin(cb, a, b)
    requires e in a && f in b && KeyEq(cb, e.key, f.key)
    ensures KeysWithin(cb, a - {e}, b - {f})
  {
    hide Lawful, KeyEq;
    forall x | x in a - {e}
      ensures HasKey(cb, b - {f}, x.key)
    {
      var y := KeyHolder(cb, b, x.key);
      KeyEqIsEquivalence(cb, e.key, f.key, x.key);
      KeyEqIsEquivalence(cb, x.key, f.key, e.key);
      assert y in b - {f};
    }
  }

  /** Counting: keys within b are no more than b's, and when as many, they are all of b's. */
  lemma {:induction false} KeysWithinCount(cb: Callbacks, a: set<Entry>, b: set<Entry>)
    requires Lawful(cb) && IsMap(cb, a) && IsMap(cb, b) && KeysWithin(cb, a, b)
    ensures |a| <= |b|
    ensures |a| == |b| ==> KeysWithin(cb, b, a)
    decreases a
  {
    hide Lawful, KeyEq, HasKey;
    if a == {} {
      assert |b| == 0 ==> b == {};
    } else {
      var e :| e in a;
      var f := KeyHolder(cb, b, e.key);
      KeysWithinRest(cb, a, b, e, f);
      KeysWithinCount(cb, a - {e}, b - {f});
      KeyEqIsEquivalence(cb, e.key, f.key, e.key);
      if |a| == |b| {
        forall y | y in b
          ensures HasKey(cb, a, y.key)
        {
          var x := e;
          if y != f {
            x := KeyHolder(cb, a - {e}, y.key);
          }
          HasKeyOf(cb, a, y.key, x);
        }
      }
    }
  }

  /** Keys within in both directions are the same keys. */
  lemma SameKeys(cb: Callbacks, a: set<Entry>, b: set<Entry>)
    requires Lawful(cb)
    ensures KeysWithin(cb, a, b) && KeysWithin(cb, b, a) <==> forall k :: HasKey(cb, a, k) <==> HasKey(cb, b, k)
  {
    if KeysWithin(cb, a, b) && KeysWithin(cb, b, a) {
      forall k
        ensures HasKey(cb, a, k) <==> HasKey(cb, b, k)
      {
        SameKey(cb, a, b, k);
        SameKey(cb, b, a, k);
      }
    } else {
      forall e: Entry
        ensures KeyEq(cb, e.key, e.key)
      {
        KeyEqIsEquivalence(cb, e.key, e.key, e.key);
      }
      assert forall e :: e in a ==> HasKey(cb, a, e.key);
      assert forall e :: e in b ==> HasKey(cb, b, e.key);
    }
  }

  lemma SameKey(cb: Callbacks, a: set<Entry>, b: set<Entry>, k: Ptr)
    requires Lawful(cb) && KeysWithin(cb, a, b)
    ensures HasKey(cb, a, k) ==> HasKey(cb, b, k)
  {
    if HasKey(cb, a, k) {
      var e :| e in a && KeyEq(cb, k, e.key);
      var f :| f in b && KeyEq(cb, e.key, f.key);
      KeyEqIsEquivalence(cb, k, e.key, f.key);
    }
  }

  /** The one-directional scan decides equality of maps of the same size. */
  lemma ScanDecides(cb: Callbacks, valueEq: (Ptr, Ptr) -> bool, a: set<Entry>, b: set<Entry>)
    requires Lawful(cb) && IsMap(cb, a) && IsMap(cb, b)
    ensures SameMap(cb, valueEq, a, b) <==> |a| == |b| && forall e :: e in a ==> Matched(cb, valueEq, e, b)
  {
    hide Lawful, KeyEq, SafeEq, HasKey, Matched;
    SameKeys(cb, a, b);
    if SameMap(cb, valueEq, a, b) {
      KeysWithinCount(cb, a, b);
      KeysWithinCount(cb, b, a);
      forall e | e in a
        ensures Matched(cb, valueEq, e, b)
      {
        var f := KeyHolder(cb, b, e.key);
        OnlyPartner(cb, valueEq, e, f, b);
      }
    }
    if |a| == |b| && forall e :: e in a ==> Matched(cb, valueEq, e, b) {
      forall e | e in a
        ensures HasKey(cb, b, e.key)
      {
        PartnerKey(cb, valueEq, e, b);
      }
      KeysWithinCount(cb, a, b);
      forall e, f | e in a && f in b && KeyEq(cb, e.key, f.key)
        ensures SafeEq(valueEq, e.value, f.value)
      {
        OnlyPartner(cb, valueEq, e, f, b);
      }
    }
  }

  lemma PartnerKey(cb: Callbacks, valueEq: (Ptr, Ptr) -> bool, e: Entry, b: set<Entry>)
    requires Matched(cb, valueEq, e, b)
    ensures HasKey(cb, b, e.key)
  {
  }

  lemma TableMap(t: HashTable)
    requires t.Valid()
    ensures IsMap(t.cb, t.Contents())
  {
    TableFacts(t);
  }

  lemma TableFacts(t: HashTable)
    requires t.Valid()
    ensures Lawful(t.cb) && IsMap(t.cb, t.Contents()) && t.entryCount == |t.Contents()|
    ensures forall e :: e in t.Contents() <==> e in t.slots[..] && Full(e)
  {
  }

  lemma SharedKeys(cb: Callbacks, cb': Callbacks, m: set<Entry>)
    requires IsMap(cb', m) && forall x, y :: KeyEq(cb, x, y) == KeyEq(cb', x, y)
    ensures IsMap(cb, m)
  {
  }

  /** The found entry is the only candidate partner. */
  lemma OnlyPartner(cb: Callbacks, valueEq: (Ptr, Ptr) -> bool, e: Entry, f: Entry, b: set<Entry>)
    requires Lawful(cb) && IsMap(cb, b) && f in b && KeyEq(cb, e.key, f.key)
    ensures Matched(cb, valueEq, e, b) <==> SafeEq(valueEq, e.value, f.value)
  {
    forall g | g in b && KeyEq(cb, e.key, g.key)
      ensures g == f
    {
      KeyEqIsEquivalence(cb, e.key, g.key, e.key);
      KeyEqIsEquivalence(cb, g.key, e.key, f.key);
    }
  }

  lemma NoPartner(cb: Callbacks, cb': Callbacks, valueEq: (Ptr, Ptr) -> bool, e: Entry, b: set<Entry>)
    requires !HasKey(cb', b, e.key) && forall x, y :: KeyEq(cb, x, y) == KeyEq(cb', x, y)
    ensures !Matched(cb, valueEq, e, b)
  {
  }

  /** Equal maps: the same keys are bound, to values that are the same or that the client's value comparison accepts. */
  lemma SameMapIs(cb: Callbacks, valueEq: (Ptr, Ptr) -> bool, a: set<Entry>, b: set<Entry>)
    requires Lawful(cb) && IsMap(cb, a) && IsMap(cb, b)
    ensures SameMap(cb, valueEq, a, b) <==>
            && (forall k :: HasKey(cb, a, k) <==> HasKey(cb, b, k))
            && (forall k, v, w :: Binds(cb, a, k, v) && Binds(cb, b, k, w) ==>
                  v == w || (v != NULL && w != NULL && valueEq(v, w)))
  {
    hide Lawful, KeyEq;
    if SameMap(cb, valueEq, a, b) {
      forall k, v, w | Binds(cb, a, k, v) && Binds(cb, b, k, w)
        ensures v == w || (v != NULL && w != NULL && valueEq(v, w))
      {
        var e :| e in a && KeyEq(cb, k, e.key) && e.value == v;
        var f :| f in b && KeyEq(cb, k, f.key) && f.value == w;
        KeyEqIsEquivalence(cb, k, e.key, k);
        KeyEqIsEquivalence(cb, e.key, k, f.key);
        SafeEqIsClient(valueEq, v, w);
      }
    } else if forall k :: HasKey(cb, a, k) <==> HasKey(cb, b, k) {
      var e, f :| e in a && f in b && KeyEq(cb, e.key, f.key) && !SafeEq(valueEq, e.value, f.value);
      KeyEqIsEquivalence(cb, e.key, e.key, e.key);
      assert Binds(cb, a, e.key, e.value) && Binds(cb, b, e.key, f.value);
      SafeEqIsClient(valueEq, e.value, f.value);
    }
  }

  /** aws_hash_table_eq: the tables may have different sizes and hash functions, but agree on key equality. */
  method TablesEqual(a: HashTable, b: HashTable, valueEq: (Ptr, Ptr) -> bool) returns (same: bool)
    requires a.Valid() && b.Valid() && forall x, y :: KeyEq(a.cb, x, y) == KeyEq(b.cb, x, y)
    ensures same <==> SameMap(a.cb, valueEq, a.Contents(), b.Contents())
  {
    hide HashTable.Valid, HashTable.Contents, Lawful, SameMap, IsMap, Matched, KeyEq, SafeEq, HasKey;
    ghost var s, A, B := a.slots[..], a.Contents(), b.Contents();
    TableFacts(a);
    TableFacts(b);
    SharedKeys(a.cb, b.cb, B);
    ScanDecides(a.cb, valueEq, A, B);
    if a.entryCount != b.entryCount {
      return false;
    }
    for i := 0 to a.slots.Length
      invariant forall j :: 0 <= j < i && Full(s[j]) ==> Matched(a.cb, valueEq, s[j], B)
    {
      if Full(a.slots[i]) {
        var found := b.Find(a.slots[i].key);
        assert s[i] in A;
        if found.None? {
          NoPartner(a.cb, b.cb, valueEq, s[i], B);
          return false;
        }
        OnlyPartner(a.cb, valueEq, s[i], b.slots[found.value], B);
        if !SafeEq(valueEq, a.slots[i].value, b.slots[found.value].value) {
          return false;
        }
      }
    }
    same := true;
  }
}
