/**
  The single-producer, single-consumer allocator of source/ring_buffer.c.
  Positions are offsets into the allocation. Each atomic load and store is a
  step of its own; the consumer releases buffers in the order of acquisition.
 */
module RingBuffers {
  import opened Options

  datatype Buf = Buf(start: nat, size: nat)

  datatype Request = Exact(size: nat) | UpTo(minimum: nat, size: nat)

  /** What an acquire does once it has read tail and head. */
  datatype Decision =
    | Refuse
    | Restart(size: nat)
    | AtHead(size: nat)
    | AtStart(size: nat)

  predicate Proper(req: Request) {
    match req
    case Exact(size) => size > 0
    case UpTo(minimum, size) => 0 < minimum <= size
  }

  function Min(a: nat, b: nat): nat {
    if a < b then a else b
  }

  /** aws_ring_buffer_acquire and aws_ring_buffer_acquire_up_to, from the copies of tail and head on. */
  function Decide(cap: nat, tail: nat, head: nat, req: Request): (d: Decision)
    requires tail <= cap && head <= cap
  {
    match req
    case Exact(size) =>
      if head == tail then
        if size > cap then Refuse else Restart(size)
      else if tail > head then
        if tail - head - 1 >= size then AtHead(size) else Refuse
      else if cap - head >= size then AtHead(size)
      else if tail > size then AtStart(size)
      else Refuse
    case UpTo(minimum, size) =>
      if head == tail then
        if Min(cap, size) < minimum then Refuse else Restart(Min(cap, size))
      else if tail > head then
        if Min(tail - head - 1, size) >= minimum then AtHead(Min(tail - head - 1, size)) else Refuse
      else if cap - head >= size then AtHead(size)
      else if tail > size then AtStart(size)
      else if cap - head >= minimum && cap - head >= tail then AtHead(cap - head)
      else if tail > minimum then AtStart(tail - 1)
      else Refuse
  }

  function Least(req: Request): nat {
    match req case Exact(size) => size case UpTo(minimum, _) => minimum
  }

  /** Sizes granted stay within the request, and a refusal means no free stretch is long enough. */
  lemma GrantedSizes(cap: nat, tail: nat, head: nat, req: Request)
    requires tail <= cap && head <= cap && Proper(req)
    ensures var d := Decide(cap, tail, head, req);
      && (d.Restart? ==> head == tail && d.size <= cap)
      && (d.AtHead? ==> head != tail && head + d.size <= cap && (tail > head ==> head + d.size < tail))
      && (d.AtStart? ==> tail < head && d.size < tail)
      && (!d.Refuse? ==> Least(req) <= d.size <= req.size)
      && (d.Refuse? <==>
            if head == tail then cap < Least(req)
            else if tail > head then tail - head - 1 < Least(req)
            else cap - head < Least(req) && tail <= Least(req))
  {
  }

  /** The longest free stretch, as head and tail show it; one byte stays free in front of a tail that is not at head. */
  function Longest(cap: nat, tail: nat, head: nat): int
    requires tail <= cap && head <= cap
  {
    if head == tail then cap
    else if tail > head then tail - head - 1
    else if cap - head >= tail - 1 then cap - head
    else tail - 1
  }

  /** A request is refused exactly when its least size exceeds that, and granted the most of its size that fits. */
  lemma GrantsMost(cap: nat, tail: nat, head: nat, req: Request)
    requires tail <= cap && head <= cap && Proper(req)
    ensures var d, most := Decide(cap, tail, head, req), Longest(cap, tail, head);
            && (d.Refuse? <==> most < Least(req))
            && (!d.Refuse? ==> d.size == if most < req.size then most else req.size)
            && (tail < head && req.size <= cap - head ==> d.AtHead?)
  {
  }

  // ---------- layout ----------

  /** Consecutive nonempty buffers from one position to another. */
  ghost predicate Flat(out: seq<Buf>, from: nat, to: nat) {
    if out == [] then from == to
    else out[0].start == from && out[0].size > 0 && Flat(out[1..], from + out[0].size, to)
  }

  /** Consecutive buffers up to some point within the capacity, then again from the start. */
  ghost predicate Wrapped(out: seq<Buf>, from: nat, to: nat, cap: nat) {
    out != [] &&
    ((out[0].start == 0 && Flat(out, 0, to)) ||
     (out[0].start == from && out[0].size > 0 && from + out[0].size <= cap
      && Wrapped(out[1..], from + out[0].size, to, cap)))
  }

  /** The outstanding buffers run from tail to head, at most once past the end. */
  ghost predicate Layout(cap: nat, tail: nat, head: nat, out: seq<Buf>) {
    && 0 < cap && tail <= cap && head <= cap
    && ((tail <= head && Flat(out, tail, head)) || (head < tail && Wrapped(out, tail, head, cap)))
  }

  predicate Disjoint(a: Buf, b: Buf) {
    a.start + a.size <= b.start || b.start + b.size <= a.start
  }

  predicate Inside(b: Buf, lo: nat, hi: nat) {
    lo <= b.start && b.start + b.size <= hi && b.size > 0
  }

  ghost predicate Apart(out: seq<Buf>) {
    forall i, j :: 0 <= i < j < |out| ==> Disjoint(out[i], out[j])
  }

  lemma {:induction false} FlatInside(out: seq<Buf>, from: nat, to: nat)
    requires Flat(out, from, to)
    ensures from <= to && Apart(out) && (forall i :: 0 <= i < |out| ==> Inside(out[i], from, to))
  {
    if out != [] {
      FlatInside(out[1..], from + out[0].size, to);
      forall i | 1 <= i < |out|
        ensures Inside(out[i], from + out[0].size, to)
      {
        assert out[i] == out[1..][i - 1];
      }
      forall i, j | 1 <= i < j < |out|
        ensures Disjoint(out[i], out[j])
      {
        assert out[i] == out[1..][i - 1] && out[j] == out[1..][j - 1];
      }
    }
  }

  lemma {:induction false} WrappedInside(out: seq<Buf>, from: nat, to: nat, cap: nat)
    requires Wrapped(out, from, to, cap) && to < from <= cap
    ensures Apart(out) && to > 0
    ensures forall i :: 0 <= i < |out| ==> Inside(out[i], 0, to) || Inside(out[i], from, cap)
  {
    if out[0].start == 0 && Flat(out, 0, to) {
      FlatInside(out, 0, to);
      assert Inside(out[0], 0, to);
    } else {
      WrappedInside(out[1..], from + out[0].size, to, cap);
      forall i | 1 <= i < |out|
        ensures Inside(out[i], 0, to) || Inside(out[i], from + out[0].size, cap)
      {
        assert out[i] == out[1..][i - 1];
      }
      forall i, j | 1 <= i < j < |out|
        ensures Disjoint(out[i], out[j])
      {
        assert out[i] == out[1..][i - 1] && out[j] == out[1..][j - 1];
      }
    }
  }

  /** Outstanding buffers are disjoint and inside the allocation; head meets tail exactly when there are none. */
  lemma LayoutSafe(cap: nat, tail: nat, head: nat, out: seq<Buf>)
    requires Layout(cap, tail, head, out)
    ensures Apart(out) && (forall i :: 0 <= i < |out| ==> Inside(out[i], 0, cap))
    ensures head == tail <==> out == []
    ensures head == 0 ==> tail == 0
  {
    if tail <= head {
      FlatInside(out, tail, head);
      assert out != [] ==> Inside(out[0], tail, head);
    } else {
      WrappedInside(out, tail, head, cap);
    }
  }

  lemma {:induction false} FlatAppend(out: seq<Buf>, from: nat, to: nat, size: nat)
    requires Flat(out, from, to) && size > 0
    ensures Flat(out + [Buf(to, size)], from, to + size)
  {
    if out != [] {
      FlatAppend(out[1..], from + out[0].size, to, size);
      assert (out + [Buf(to, size)])[1..] == out[1..] + [Buf(to, size)];
    }
  }

  lemma {:induction false} WrappedAppend(out: seq<Buf>, from: nat, to: nat, cap: nat, size: nat)
    requires Wrapped(out, from, to, cap) && size > 0
    ensures Wrapped(out + [Buf(to, size)], from, to + size, cap)
  {
    var r := out + [Buf(to, size)];
    assert r[1..] == out[1..] + [Buf(to, size)];
    if out[0].start == 0 && Flat(out, 0, to) {
      FlatAppend(out, 0, to, size);
    } else {
      WrappedAppend(out[1..], from + out[0].size, to, cap, size);
    }
  }

  /** A buffer at the start after a flat stretch. */
  lemma {:induction false} FlatThenStart(out: seq<Buf>, from: nat, to: nat, cap: nat, size: nat)
    requires Flat(out, from, to) && to <= cap && size > 0
    ensures Wrapped(out + [Buf(0, size)], from, size, cap)
  {
    var r := out + [Buf(0, size)];
    if out == [] {
      assert r[1..] == [];
      assert Flat(r, 0, size);
    } else {
      FlatInside(out[1..], from + out[0].size, to);
      FlatThenStart(out[1..], from + out[0].size, to, cap, size);
      assert r[1..] == out[1..] + [Buf(0, size)];
    }
  }

  lemma ReleaseKeeps(cap: nat, tail: nat, head: nat, out: seq<Buf>)
    requires Layout(cap, tail, head, out) && out != []
    ensures Layout(cap, out[0].start + out[0].size, head, out[1..])
  {
    LayoutSafe(cap, tail, head, out);
    if tail <= head {
      FlatInside(out[1..], tail + out[0].size, head);
    } else if out[0].start == 0 && Flat(out, 0, head) {
      FlatInside(out[1..], out[0].size, head);
    }
  }

  // ---------- the protocol ----------

  /** Where the producer is: which copies it holds, or the tail store still to come. */
  datatype Producer =
    | Idle
    | HasTail(req: Request, tail: nat)
    | HasBoth(req: Request, tail: nat, head: nat)
    | TailToStore(size: nat)

  datatype State = State(cap: nat, head: nat, tail: nat, out: seq<Buf>, pc: Producer)

  predicate Init(s: State) {
    s.cap > 0 && s.head == 0 && s.tail == 0 && s.out == [] && s.pc == Idle
  }

  predicate LoadTail(s: State, s': State) {
    s.pc == Idle && s'.pc.HasTail? && Proper(s'.pc.req) && s' == s.(pc := HasTail(s'.pc.req, s.tail))
  }

  predicate LoadHead(s: State, s': State) {
    s.pc.HasTail? && s' == s.(pc := HasBoth(s.pc.req, s.pc.tail, s.head))
  }

  /** The store to head, with which all but a restarting acquire vend their buffer; or the refusal. */
  predicate StoreHead(s: State, s': State) {
    && s.pc.HasBoth? && s.pc.tail <= s.cap && s.pc.head <= s.cap
    && match Decide(s.cap, s.pc.tail, s.pc.head, s.pc.req)
       case Refuse => s' == s.(pc := Idle)
       case Restart(size) => s' == s.(head := size, pc := TailToStore(size))
       case AtHead(size) => s' == s.(head := s.pc.head + size, out := s.out + [Buf(s.pc.head, size)], pc := Idle)
       case AtStart(size) => s' == s.(head := size, out := s.out + [Buf(0, size)], pc := Idle)
  }

  predicate StoreTail(s: State, s': State) {
    s.pc.TailToStore? && s' == s.(tail := 0, out := s.out + [Buf(0, s.pc.size)], pc := Idle)
  }

  /** aws_ring_buffer_release of the buffer acquired first. */
  predicate Release(s: State, s': State) {
    s.out != [] && s' == s.(tail := s.out[0].start + s.out[0].size, out := s.out[1..])
  }

  predicate Step(s: State, s': State) {
    LoadTail(s, s') || LoadHead(s, s') || StoreHead(s, s') || StoreTail(s, s') || Release(s, s')
  }

  /** An old copy of tail still tells the truth about the space it promises. */
  ghost predicate CopyOk(s: State, copy: nat) {
    && copy <= s.cap
    && (copy == s.head ==> s.out == [] && s.tail == copy)
    && (copy < s.head ==> s.tail <= s.head && copy <= s.tail)
    && (copy > s.head ==> s.tail <= s.head || copy <= s.tail)
  }

  ghost predicate Inv(s: State) {
    match s.pc
    case Idle => Layout(s.cap, s.tail, s.head, s.out)
    case HasTail(req, tail) => Layout(s.cap, s.tail, s.head, s.out) && Proper(req) && CopyOk(s, tail)
    case HasBoth(req, tail, head) =>
      Layout(s.cap, s.tail, s.head, s.out) && Proper(req) && CopyOk(s, tail) && head == s.head
    case TailToStore(size) => s.out == [] && s.head == size && 0 < size <= s.cap && s.tail <= s.cap
  }

  lemma LoadKeeps(s: State, s': State)
    requires Inv(s) && (LoadTail(s, s') || LoadHead(s, s'))
    ensures Inv(s')
  {
    if LoadTail(s, s') {
      LayoutSafe(s.cap, s.tail, s.head, s.out);
    }
  }

  lemma StoreHeadKeeps(s: State, s': State)
    requires Inv(s) && StoreHead(s, s')
    ensures Inv(s')
  {
    var t, h := s.pc.tail, s.head;
    GrantedSizes(s.cap, t, h, s.pc.req);
    match Decide(s.cap, t, h, s.pc.req)
    case Refuse =>
    case Restart(size) =>
    case AtHead(size) =>
      if s.tail <= h {
        FlatAppend(s.out, s.tail, h, size);
      } else {
        WrappedAppend(s.out, s.tail, h, s.cap, size);
      }
    case AtStart(size) =>
      FlatThenStart(s.out, s.tail, h, s.cap, size);
  }

  lemma StoreTailKeeps(s: State, s': State)
    requires Inv(s) && StoreTail(s, s')
    ensures Inv(s')
  {
    assert s'.out == [Buf(0, s.pc.size)] && s'.out[1..] == [];
    assert Flat(s'.out, 0, s.head);
  }

  lemma ReleaseStepKeeps(s: State, s': State)
    requires Inv(s) && Release(s, s')
    ensures Inv(s')
  {
    ReleaseKeeps(s.cap, s.tail, s.head, s.out);
    LayoutSafe(s.cap, s.tail, s.head, s.out);
    if s.head < s.tail {
      if s.out[0].start == 0 && Flat(s.out, 0, s.head) {
        FlatInside(s.out, 0, s.head);
        assert Inside(s.out[0], 0, s.head);
      }
    } else {
      FlatInside(s.out, s.tail, s.head);
      assert Inside(s.out[0], s.tail, s.head);
    }
  }

  lemma StepKeeps(s: State, s': State)
    requires Inv(s) && Step(s, s')
    ensures Inv(s')
  {
    if LoadTail(s, s') || LoadHead(s, s') {
      LoadKeeps(s, s');
    } else if StoreHead(s, s') {
      StoreHeadKeeps(s, s');
    } else if StoreTail(s, s') {
      StoreTailKeeps(s, s');
    } else {
      ReleaseStepKeeps(s, s');
    }
  }

  ghost predicate IsRun(run: seq<State>) {
    run != [] && Init(run[0]) && forall i :: 0 <= i < |run| - 1 ==> Step(run[i], run[i + 1])
  }

  lemma {:induction false} RunInv(run: seq<State>, i: nat)
    requires IsRun(run) && i < |run|
    ensures Inv(run[i])
    decreases i
  {
    if i == 0 {
      assert Flat([], 0, 0);
    } else {
      RunInv(run, i - 1);
      assert Step(run[i - 1], run[i - 1 + 1]);
      StepKeeps(run[i - 1], run[i]);
    }
  }

  /**
    In every interleaving: outstanding buffers are disjoint and inside the allocation; between acquires
    head equals tail exactly when nothing is outstanding, and then every request up to the capacity is granted.
   */
  lemma Safety(run: seq<State>, i: nat)
    requires IsRun(run) && i < |run|
    ensures var s := run[i];
      && Apart(s.out)
      && (forall k :: 0 <= k < |s.out| ==> Inside(s.out[k], 0, s.cap))
      && s.head <= s.cap && s.tail <= s.cap
      && (s.pc == Idle ==> (s.head == s.tail <==> s.out == []) && (s.head == 0 ==> s.tail == 0))
      && (s.pc == Idle && s.out == [] ==>
            && (forall size :: 0 < size <= s.cap ==> Decide(s.cap, s.tail, s.head, Exact(size)) == Restart(size))
            && (forall least, size :: 0 < least <= size && least <= s.cap ==>
                  Decide(s.cap, s.tail, s.head, UpTo(least, size)) == Restart(Min(size, s.cap))))
  {
    RunInv(run, i);
    var s := run[i];
    if s.pc.TailToStore? {
      assert s.out == [];
    } else {
      LayoutSafe(s.cap, s.tail, s.head, s.out);
    }
  }

  /**
    In every interleaving, with nothing outstanding and no acquire under way, the next request that fits the
    capacity ends with a buffer of the size asked for, or of the whole capacity for an up-to request beyond it,
    at the start; one that does not fit changes nothing. No consumer step can come in between.
   */
  lemma EmptyGrants(run: seq<State>, i: nat)
    requires IsRun(run) && i + 3 < |run| && run[i].pc == Idle && run[i].out == []
    ensures run[i + 1].pc.HasTail? && Proper(run[i + 1].pc.req)
    ensures var req, cap := run[i + 1].pc.req, run[i].cap;
            && (Least(req) > cap ==> run[i + 3] == run[i])
            && (Least(req) <= cap && i + 4 < |run| ==>
                  var size := Min(req.size, cap);
                  run[i + 4] == run[i].(head := size, tail := 0, out := [Buf(0, size)]))
  {
    RunInv(run, i);
    LayoutSafe(run[i].cap, run[i].tail, run[i].head, run[i].out);
    assert Step(run[i], run[i + 1]);
    assert LoadTail(run[i], run[i + 1]);
    assert Step(run[i + 1], run[i + 1 + 1]);
    assert LoadHead(run[i + 1], run[i + 2]);
    assert Step(run[i + 2], run[i + 2 + 1]);
    assert StoreHead(run[i + 2], run[i + 3]);
    if Least(run[i + 1].pc.req) <= run[i].cap && i + 4 < |run| {
      assert Step(run[i + 3], run[i + 3 + 1]);
      assert StoreTail(run[i + 3], run[i + 4]);
    }
  }

  // ---------- one thread ----------

  class RingBuffer {
    const capacity: nat
    var head: nat
    var tail: nat
    ghost var out: seq<Buf>

    ghost predicate Valid()
      reads this
    {
      Layout(capacity, tail, head, out)
    }

    constructor (size: nat)
      requires size > 0
      ensures Valid() && capacity == size && out == []
    {
      capacity, head, tail, out := size, 0, 0, [];
      new;
      assert Flat([], 0, 0);
    }

    /** aws_ring_buffer_acquire with no consumer in between; None for a zero size and for no space. */
    method Acquire(requested: nat) returns (dest: Option<Buf>)
      requires Valid()
      modifies this
      ensures Valid()
      ensures dest.None? ==> out == old(out) && head == old(head) && tail == old(tail)
      ensures dest.Some? ==> dest.value.size == requested && out == old(out) + [dest.value]
      ensures dest.Some? <==> requested > 0 && !Decide(capacity, old(tail), old(head), Exact(requested)).Refuse?
      ensures old(out) == [] && 0 < requested <= capacity ==> dest.Some?
    {
      LayoutSafe(capacity, tail, head, out);
      if requested == 0 {
        return None;
      }
      var t, h := tail, head;
      if h == t {
        if requested > capacity {
          return None;
        }
        head := requested;
        tail := 0;
        dest := Some(Buf(0, requested));
        FlatAppend([], 0, 0, requested);
      } else if t > h {
        if t - h - 1 < requested {
          return None;
        }
        head := h + requested;
        dest := Some(Buf(h, requested));
        WrappedAppend(out, t, h, capacity, requested);
      } else if capacity - h >= requested {
        head := h + requested;
        dest := Some(Buf(h, requested));
        FlatAppend(out, t, h, requested);
      } else if t > requested {
        head := requested;
        dest := Some(Buf(0, requested));
        FlatThenStart(out, t, h, capacity, requested);
      } else {
        return None;
      }
      out := out + [dest.value];
    }

    /** aws_ring_buffer_release, in order of acquisition. */
    method ReleaseFirst(buf: Buf)
      requires Valid() && out != [] && buf == out[0]
      modifies this
      ensures Valid() && out == old(out)[1..] && head == old(head)
    {
      ReleaseKeeps(capacity, tail, head, out);
      tail := buf.start + buf.size;
      out := out[1..];
    }
  }
}
