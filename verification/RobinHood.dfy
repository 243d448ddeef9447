/**
  The Robin Hood slot array of source/hash_table.c as a value: probe distances,
  the ordering invariant that the C validity check does not test, and the
  effect of displacement and of backward-shift deletion on both.
 */
module RobinHood {
  import opened PowersOfTwo

  /** An address; 0 is the null pointer. */
  type Ptr = nat
  const NULL: Ptr := 0

  /** A slot. A hash code of 0 marks it empty. */
  datatype Entry = Entry(key: Ptr, value: Ptr, hash: nat)
  const EMPTY := Entry(NULL, NULL, 0)

  predicate Full(e: Entry) {
    e.hash != 0
  }

  // ---------- circular positions ----------

  function Wrap(x: int, n: nat): int {
    if x >= n then x - n else x
  }

  function Home(hash: nat, n: nat): (h: nat)
    requires n > 0
    ensures h < n
  {
    hash % n
  }

  /** How many slots past its home slot the entry at i sits. */
  function Dist(s: seq<Entry>, i: nat): (d: nat)
    requires i < |s|
    ensures d < |s|
  {
    Offset(Home(s[i].hash, |s|), i, |s|)
  }

  /** Steps forward from one slot to another. */
  function Offset(from: nat, to: nat, n: nat): (d: nat)
    requires from < n && to < n
    ensures d < n && Wrap(from + d, n) == to
  {
    if to >= from then to - from else to + n - from
  }

  function Prev(i: nat, n: nat): (p: nat)
    requires i < n
    ensures p < n && Wrap(p + 1, n) == i
  {
    if i == 0 then n - 1 else i - 1
  }

  // ---------- the machine's index arithmetic ----------

  /** Slot counts: a power of two no larger than 2^63. */
  ghost predicate IsSize(n: nat) {
    exists k: nat :: 1 <= k <= 63 && n == Pow2(k)
  }

  /** A slot count divides 2^64, so masking survives 64-bit wrap-around. */
  lemma SizeDividesWord(n: nat) returns (m: nat)
    requires IsSize(n)
    ensures n >= 2 && m > 0 && TWO64 == n * m
  {
    var k: nat :| 1 <= k <= 63 && n == Pow2(k);
    Pow2Add(k, 64 - k);
    Pow2At64();
    Pow2Monotone(1, k);
    m := Pow2(64 - k);
  }

  /** (hash_code + probe_idx) & mask, in 64-bit arithmetic. */
  function Probe(hash: nat, probe: nat, n: nat): (i: nat)
    requires n > 0
    ensures i < n
  {
    ((hash + probe) % TWO64) % n
  }

  /** (index - hash_code) & mask, in 64-bit arithmetic. */
  function ProbeOf(i: nat, hash: nat, n: nat): (d: nat)
    requires n > 0
    ensures d < n
  {
    ((i - hash) % TWO64) % n
  }

  lemma ProbeIsWrap(hash: nat, probe: nat, n: nat)
    requires IsSize(n) && n > 0 && probe < n
    ensures Probe(hash, probe, n) == Wrap(Home(hash, n) + probe, n)
  {
    var m := SizeDividesWord(n);
    hide IsSize, Pow2;
    ModOfMod(hash + probe, n, m);
    var q := Quotient(hash, n);
    AddWraps(q, hash % n, probe, n);
  }

  lemma AddWraps(q: nat, h: nat, probe: nat, n: nat)
    requires h < n && probe < n
    ensures (q * n + h + probe) % n == Wrap(h + probe, n)
  {
    if h + probe < n {
      ModUnique(q * n + h + probe, n, q, h + probe);
    } else {
      assert q * n + h + probe == (q + 1) * n + (h + probe - n);
      ModUnique(q * n + h + probe, n, q + 1, h + probe - n);
    }
  }

  lemma ProbeOfIsOffset(i: nat, hash: nat, n: nat)
    requires IsSize(n) && i < n
    ensures ProbeOf(i, hash, n) == Offset(Home(hash, n), i, n)
  {
    var m := SizeDividesWord(n);
    hide IsSize, Pow2;
    ModOfMod(i - hash, n, m);
    var q := Quotient(hash, n);
    SubtractWraps(q, hash % n, i, n);
  }

  lemma SubtractWraps(q: nat, h: nat, i: nat, n: nat)
    requires h < n && i < n
    ensures (i - (q * n + h)) % n == Offset(h, i, n)
  {
    if i >= h {
      assert i - (q * n + h) == (0 - q) * n + (i - h);
      ModUnique(i - (q * n + h), n, 0 - q, i - h);
    } else {
      assert i - (q * n + h) == (0 - q - 1) * n + (i + n - h);
      ModUnique(i - (q * n + h), n, 0 - q - 1, i + n - h);
    }
  }

  // ---------- the invariant ----------

  /** An entry away from home follows an entry at most one step closer to its own home. */
  predicate Local(s: seq<Entry>, i: nat)
    requires i < |s|
  {
    Full(s[i]) && Dist(s, i) > 0 ==>
      Full(s[Prev(i, |s|)]) && Dist(s, i) - 1 <= Dist(s, Prev(i, |s|))
  }

  ghost predicate Ordered(s: seq<Entry>) {
    forall i :: 0 <= i < |s| ==> Local(s, i)
  }

  // ---------- consequences ----------

  /** Going back from an entry towards its home, slots are full and their distances fall by at most one a step. */
  lemma {:induction false} ChainBack(s: seq<Entry>, i: nat, back: nat)
    requires Ordered(s) && i < |s| && Full(s[i]) && back <= Dist(s, i)
    ensures var j := Offset(back, i, |s|); Full(s[j]) && Dist(s, j) + back >= Dist(s, i)
    decreases back
  {
    if back > 0 {
      ChainBack(s, i, back - 1);
      var j := Offset(back - 1, i, |s|);
      assert Local(s, j);
      assert Prev(j, |s|) == Offset(back, i, |s|);
    }
  }

  /** While some slot is empty, no probe distance reaches size - 1. */
  lemma DistBelowLast(s: seq<Entry>, i: nat)
    requires Ordered(s) && EMPTY in s && i < |s| && Full(s[i])
    ensures Dist(s, i) < |s| - 1
  {
    var z: nat :| z < |s| && s[z] == EMPTY;
    if Dist(s, i) == |s| - 1 {
      var back := Offset(z, i, |s|);
      ChainBack(s, i, back);
    }
  }

  /** The early exit is sound: a slot that is empty or closer to home than the probe ends the search. */
  lemma StopIsSound(s: seq<Entry>, hash: nat, probe: nat, at: nat)
    requires Ordered(s) && 0 < |s| && probe < |s| && at < |s|
    requires var j := Wrap(Home(hash, |s|) + probe, |s|); !Full(s[j]) || Dist(s, j) < probe
    requires Full(s[at]) && s[at].hash == hash
    ensures Dist(s, at) < probe
  {
    if Dist(s, at) >= probe {
      ChainBack(s, at, Dist(s, at) - probe);
    }
  }

  // ---------- displacement ----------

  /** An entry may be tried at its probe-th slot: the slot before is full and no closer to home. */
  ghost predicate Carried(s: seq<Entry>, e: Entry, probe: nat) {
    && 0 < |s|
    && probe < |s|
    && (probe > 0 ==>
          var j := Wrap(Home(e.hash, |s|) + probe - 1, |s|);
          Full(s[j]) && probe - 1 <= Dist(s, j))
  }

  /** Taking a slot from an empty or richer occupant keeps the order, and the victim can be carried on. */
  lemma SwapKeepsOrder(s: seq<Entry>, e: Entry, probe: nat, at: nat, s': seq<Entry>)
    requires Ordered(s) && Full(e) && Carried(s, e, probe)
    requires at == Wrap(Home(e.hash, |s|) + probe, |s|)
    requires !Full(s[at]) || Dist(s, at) < probe
    requires s' == s[at := e]
    ensures Ordered(s')
    ensures Full(s[at]) && EMPTY in s ==> Carried(s', s[at], Dist(s, at) + 1)
    ensures Full(s[at]) && EMPTY in s ==>
              Wrap(Home(s[at].hash, |s|) + Dist(s, at) + 1, |s|) == Wrap(at + 1, |s|)
  {
    assert Dist(s', at) == probe;
    forall i | 0 <= i < |s'|
      ensures Local(s', i)
    {
      assert Local(s, i);
      if Prev(i, |s|) == at && i != at {
        assert s'[i] == s[i];
      } else if i != at {
        assert s'[Prev(i, |s|)] == s[Prev(i, |s|)];
      } else if probe > 0 {
        assert Prev(at, |s|) == Wrap(Home(e.hash, |s|) + probe - 1, |s|);
      }
    }
    if Full(s[at]) && EMPTY in s {
      DistBelowLast(s, at);
    }
  }

  /** Passing an occupant that is no closer to home keeps the entry carried. */
  lemma PassKeepsCarried(s: seq<Entry>, e: Entry, probe: nat, at: nat)
    requires Ordered(s) && EMPTY in s && Carried(s, e, probe)
    requires at == Wrap(Home(e.hash, |s|) + probe, |s|)
    requires Full(s[at]) && probe <= Dist(s, at)
    ensures Carried(s, e, probe + 1)
    ensures Wrap(Home(e.hash, |s|) + probe + 1, |s|) == Wrap(at + 1, |s|)
  {
    DistBelowLast(s, at);
  }

  // ---------- backward shift ----------

  /** Slot j after deleting slot i and moving the k entries behind it back by one. */
  function ShiftedAt(s: seq<Entry>, i: nat, k: nat, j: nat): Entry
    requires i < |s| && k < |s| && j < |s|
  {
    if Offset(i, j, |s|) < k then s[Wrap(j + 1, |s|)]
    else if Offset(i, j, |s|) == k then EMPTY
    else s[j]
  }

  ghost function Shifted(s: seq<Entry>, i: nat, k: nat): (t: seq<Entry>)
    requires i < |s| && k < |s|
    ensures |t| == |s|
    ensures forall j :: 0 <= j < |s| ==> t[j] == ShiftedAt(s, i, k, j)
  {
    seq(|s|, j requires 0 <= j < |s| => ShiftedAt(s, i, k, j))
  }

  /** The k entries behind slot i are away from home; the slot after them is empty or at home. */
  ghost predicate ShiftRun(s: seq<Entry>, i: nat, k: nat)
    requires i < |s|
  {
    && k + 1 < |s|
    && (forall j :: 0 <= j < |s| && 1 <= Offset(i, j, |s|) <= k ==> Away(s, j))
    && !Away(s, Wrap(i + k + 1, |s|))
  }

  predicate Away(s: seq<Entry>, i: int)
    requires 0 <= i < |s|
  {
    Full(s[i]) && Dist(s, i) > 0
  }

  /** A slot the shift has filled: its entry came from the next slot, one nearer home. */
  lemma ShiftedSlot(s: seq<Entry>, i: nat, k: nat, j: nat)
    requires i < |s| && ShiftRun(s, i, k) && j < |s| && Offset(i, j, |s|) < k
    ensures var next := Wrap(j + 1, |s|);
            0 <= next < |s| && Prev(next, |s|) == j && Away(s, next) && Shifted(s, i, k)[j] == s[next]
            && Dist(Shifted(s, i, k), j) == Dist(s, next) - 1
  {
    hide Full;
    assert Offset(i, Wrap(j + 1, |s|), |s|) == Offset(i, j, |s|) + 1;
  }

  /** A slot beyond the hole is untouched. */
  lemma UnshiftedSlot(s: seq<Entry>, i: nat, k: nat, j: nat)
    requires i < |s| && ShiftRun(s, i, k) && j < |s| && Offset(i, j, |s|) > k
    ensures Shifted(s, i, k)[j] == s[j] && Dist(Shifted(s, i, k), j) == Dist(s, j)
  {
    hide Full, Away;
  }

  lemma ShiftKeepsLocal(s: seq<Entry>, i: nat, k: nat, j: nat)
    requires Ordered(s) && i < |s| && Full(s[i]) && ShiftRun(s, i, k) && j < |s|
    ensures Local(Shifted(s, i, k), j)
  {
    var n, t, o := |s|, Shifted(s, i, k), Offset(i, j, |s|);
    var p := Prev(j, n);
    assert Local(s, j);
    if o < k {
      var next := Wrap(j + 1, n);
      ShiftedSlot(s, i, k, j);
      assert Local(s, next);
      if o == 0 {
        assert Offset(i, p, n) == n - 1;
        UnshiftedSlot(s, i, k, p);
      } else {
        assert Offset(i, p, n) == o - 1;
        ShiftedSlot(s, i, k, p);
      }
    } else if o == k {
      assert t[j] == EMPTY;
    } else {
      UnshiftedSlot(s, i, k, j);
      assert Offset(i, p, n) == o - 1;
      if o == k + 1 {
        assert Wrap(i + k + 1, n) == j;
        assert !Away(s, j);
      } else {
        UnshiftedSlot(s, i, k, p);
      }
    }
  }

  lemma ShiftKeepsOrder(s: seq<Entry>, i: nat, k: nat)
    requires Ordered(s) && i < |s| && Full(s[i]) && ShiftRun(s, i, k)
    ensures Ordered(Shifted(s, i, k))
  {
    forall j | 0 <= j < |s|
      ensures Local(Shifted(s, i, k), j)
    {
      ShiftKeepsLocal(s, i, k, j);
    }
  }

  /** One more shift moves one entry and nothing else. */
  lemma ShiftedStep(s: seq<Entry>, i: nat, k: nat)
    requires i < |s| && k + 1 < |s|
    ensures var a, b := Wrap(i + k, |s|), Wrap(i + k + 1, |s|);
      Shifted(s, i, k + 1) == Shifted(s, i, k)[a := s[b]][b := EMPTY]
      && Shifted(s, i, k)[a] == EMPTY && Shifted(s, i, k)[b] == s[b]
  {
    var n := |s|;
    var a, b := Wrap(i + k, n), Wrap(i + k + 1, n);
    assert Offset(i, a, n) == k && Offset(i, b, n) == k + 1 && Wrap(a + 1, n) == b;
    var t := Shifted(s, i, k)[a := s[b]][b := EMPTY];
    forall j | 0 <= j < n
      ensures Shifted(s, i, k + 1)[j] == t[j]
    {
      if j != a && j != b {
        assert Offset(i, j, n) != k && Offset(i, j, n) != k + 1;
      }
    }
  }

  lemma MoveKeepsContents(t: seq<Entry>, a: nat, b: nat)
    requires a < |t| && b < |t| && a != b && t[a] == EMPTY
    ensures multiset(t[a := t[b]][b := EMPTY]) == multiset(t)
  {
  }

  lemma ClearContents(s: seq<Entry>, i: nat)
    requires i < |s|
    ensures multiset(Shifted(s, i, 0)) == multiset(s) - multiset{s[i]} + multiset{EMPTY}
  {
    assert Shifted(s, i, 0) == s[i := EMPTY];
  }

  lemma ShiftStepContents(s: seq<Entry>, i: nat, k: nat)
    requires i < |s| && k + 1 < |s|
    ensures multiset(Shifted(s, i, k + 1)) == multiset(Shifted(s, i, k))
  {
    ShiftedStep(s, i, k);
    MoveKeepsContents(Shifted(s, i, k), Wrap(i + k, |s|), Wrap(i + k + 1, |s|));
  }

  /** Deletion removes exactly the entry of slot i. */
  lemma {:induction false} ShiftedContents(s: seq<Entry>, i: nat, k: nat)
    requires i < |s| && k < |s|
    ensures multiset(Shifted(s, i, k)) == multiset(s) - multiset{s[i]} + multiset{EMPTY}
    decreases k
  {
    if k == 0 {
      ClearContents(s, i);
    } else {
      ShiftedContents(s, i, k - 1);
      ShiftStepContents(s, i, k - 1);
    }
  }
}
