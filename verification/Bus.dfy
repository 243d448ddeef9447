/**
  The reliable asynchronous message bus of source/bus.c as a transition system:
  clients that send, subscribe, unsubscribe and shut down, each in one critical
  section, interleaved with the steps of the dispatch thread.
 */
module Buses {
  import opened Sequences

  const ADDRESS_CLOSE: nat := 0
  const ADDRESS_ALL: nat := 0xFFFF_FFFF_FFFF_FFFF

  /** A callback with its user data. */
  type Listener = nat

  datatype Op = Add(address: nat, l: Listener) | Remove(address: nat, l: Listener)

  type Slots = map<nat, seq<Listener>>

  // ---------- the listener table ----------

  function Listeners(slots: Slots, address: nat): seq<Listener> {
    if address in slots then slots[address] else []
  }

  /** The list without its first occurrence of the listener. */
  function Without(ls: seq<Listener>, l: Listener): seq<Listener> {
    if ls == [] then [] else if ls[0] == l then ls[1..] else [ls[0]] + Without(ls[1..], l)
  }

  /** s_bus_subscribe and s_bus_unsubscribe. */
  function Apply(slots: Slots, op: Op): Slots {
    if op.address == ADDRESS_CLOSE then slots
    else
      match op
      case Add(a, l) => slots[a := Listeners(slots, a) + [l]]
      case Remove(a, l) => if a in slots then slots[a := Without(slots[a], l)] else slots
  }

  function Table(ops: seq<Op>): Slots {
    if ops == [] then map[] else Apply(Table(ops[..|ops| - 1]), ops[|ops| - 1])
  }

  /** s_bus_deliver_msg: the listeners of all addresses, then those of the message's own. */
  function Recipients(slots: Slots, address: nat): seq<Listener> {
    Listeners(slots, ADDRESS_ALL) + Listeners(slots, address)
  }

  /** How many subscriptions of a listener are in force after a list of requests. */
  function Net(ops: seq<Op>, address: nat, l: Listener): nat {
    if ops == [] || address == ADDRESS_CLOSE then 0
    else
      var n := Net(ops[..|ops| - 1], address, l);
      match ops[|ops| - 1]
      case Add(a, k) => if a == address && k == l then n + 1 else n
      case Remove(a, k) => if a == address && k == l && n > 0 then n - 1 else n
  }

  lemma {:induction false} WithoutCount(ls: seq<Listener>, l: Listener, k: Listener)
    ensures multiset(Without(ls, l))[k] == multiset(ls)[k] - (if k == l && l in ls then 1 else 0)
  {
    if ls != [] {
      assert ls == [ls[0]] + ls[1..];
      if ls[0] != l {
        WithoutCount(ls[1..], l, k);
      }
    }
  }

  lemma ApplyCount(slots: Slots, op: Op, address: nat, l: Listener)
    requires address != ADDRESS_CLOSE
    ensures var n := multiset(Listeners(slots, address))[l];
            multiset(Listeners(Apply(slots, op), address))[l] ==
            match op
            case Add(a, k) => if a == address && k == l then n + 1 else n
            case Remove(a, k) => if a == address && k == l && n > 0 then n - 1 else n
  {
    var ls: seq<Listener> := Listeners(slots, address);
    if op.address == address {
      WithoutCount(ls, op.l, l);
      assert multiset(ls + [op.l]) == multiset(ls) + multiset{op.l};
    }
  }

  /** The table holds each listener once per subscription in force. */
  lemma {:induction false} TableCounts(ops: seq<Op>, address: nat, l: Listener)
    ensures multiset(Listeners(Table(ops), address))[l] == Net(ops, address, l)
  {
    if address == ADDRESS_CLOSE {
      NoneAtClose(ops);
    } else if ops != [] {
      var n := |ops| - 1;
      TableCounts(ops[..n], address, l);
      ApplyCount(Table(ops[..n]), ops[n], address, l);
    }
  }

  lemma {:induction false} NoneAtClose(ops: seq<Op>)
    ensures ADDRESS_CLOSE !in Table(ops)
  {
    if ops != [] {
      NoneAtClose(ops[..|ops| - 1]);
    }
  }

  /** How often one message reaches a listener: once per subscription to its address and once per subscription to all. */
  lemma CallsPerListener(ops: seq<Op>, address: nat, l: Listener)
    ensures multiset(Recipients(Table(ops), address))[l] == Net(ops, ADDRESS_ALL, l) + Net(ops, address, l)
  {
    TableCounts(ops, ADDRESS_ALL, l);
    TableCounts(ops, address, l);
  }

  /** A listener with a single subscription that covers the address is called once exactly when that address is not the address of all. */
  lemma OnceUnlessAll(ops: seq<Op>, address: nat, l: Listener)
    requires address != ADDRESS_ALL ==> Net(ops, ADDRESS_ALL, l) + Net(ops, address, l) == 1
    requires address == ADDRESS_ALL ==> Net(ops, ADDRESS_ALL, l) == 1
    ensures multiset(Recipients(Table(ops), address))[l] == 1 <==> address != ADDRESS_ALL
  {
    CallsPerListener(ops, address, l);
  }

  /** A message to the address of all reaches a listener of all addresses twice. */
  lemma AllTwice(l: Listener)
    ensures Recipients(Table([Add(ADDRESS_ALL, l)]), ADDRESS_ALL) == [l, l]
  {
    var ops := [Add(ADDRESS_ALL, l)];
    assert ops[..|ops| - 1] == [];
    assert Table([]) == map[];
    assert Table(ops) == Apply(map[], ops[0]);
  }

  /** Listeners of all addresses are called first, and listeners of one address in the order they subscribed. */
  lemma CallOrder(a: nat, l: Listener, k: Listener, m: Listener)
    requires a != ADDRESS_CLOSE && a != ADDRESS_ALL
    ensures Recipients(Table([Add(a, l), Add(ADDRESS_ALL, k), Add(a, m)]), a) == [k, l, m]
  {
    var one, two, three := [Add(a, l)], [Add(a, l), Add(ADDRESS_ALL, k)], [Add(a, l), Add(ADDRESS_ALL, k), Add(a, m)];
    assert three[..2] == two && two[..1] == one && one[..0] == [];
    assert Table([]) == map[];
    assert Table(one) == Apply(map[], one[0]);
    assert Table(two) == Apply(Table(one), two[1]);
    assert Table(three) == Apply(Table(two), three[2]);
    assert Listeners(Table(one), a) == [l] && Listeners(Table(one), ADDRESS_ALL) == [];
    assert Listeners(Table(two), a) == [l] && Listeners(Table(two), ADDRESS_ALL) == [k];
  }

  // ---------- the state ----------

  /** A queued message: its cell, the send it carries, and whether its destructor is still to be called. */
  datatype Msg = Msg(cell: nat, id: nat, address: nat, destructor: bool)

  /** An accepted send, with the number of subscription requests accepted before it. */
  datatype Sent = Sent(address: nat, destructor: bool, opsBefore: nat)

  datatype Event = Called(l: Listener, address: nat, id: nat) | Destroyed(id: nat)

  /** Where the dispatch thread stands; while calling, the listeners still to call. */
  datatype Phase = Waiting | Applying | Starting | Calling(rest: seq<Listener>) | Freeing | Checking | Exited

  /** The shared queues, the dispatcher's own lists, and the history of what was accepted and done. */
  datatype Bus = Bus(
    pool: nat, free: seq<nat>, heap: multiset<nat>, nextCell: nat,
    msgs: seq<Msg>, subs: seq<Op>, running: bool,
    slots: Slots, drains: nat, pendingSubs: seq<Op>, pending: seq<Msg>, cursor: nat, phase: Phase,
    ops: seq<Op>, applied: nat, sent: seq<Sent>, shown: seq<nat>, log: seq<Event>)

  /** s_bus_async_init: every pooled message is free, the dispatcher is about to wait. */
  function Init(pool: nat): Bus {
    Bus(pool, seq(pool, i => i), multiset{}, pool, [], [], true, map[], 1, [], [], 0, Waiting, [], 0, [], [], [])
  }

  datatype Step =
    | Send(address: nat, destructor: bool)
    | Request(op: Op)
    | CleanUp
    | Wake
    | ApplyOne
    | Begin
    | Call
    | Recycle
    | Check

  predicate DispatcherStep(step: Step) {
    step.Wake? || step.ApplyOne? || step.Begin? || step.Call? || step.Recycle? || step.Check?
  }

  /** Client steps are always possible; the dispatcher takes the step its phase calls for. */
  predicate Enabled(s: Bus, step: Step) {
    match step
    case Wake => s.phase.Waiting? && (!s.running || s.subs != [] || s.msgs != [])
    case ApplyOne => s.phase.Applying?
    case Begin => s.phase.Starting?
    case Call => s.phase.Calling? && s.cursor < |s.pending|
    case Recycle => s.phase.Freeing?
    case Check => s.phase.Checking?
    case _ => true
  }

  /** s_bus_async_send, on a message from the free list or a new one. */
  function DoSend(s: Bus, address: nat, destructor: bool): Bus {
    if !s.running then s
    else
      var pooled := s.free != [];
      var cell := if pooled then s.free[|s.free| - 1] else s.nextCell;
      s.(free := if pooled then s.free[..|s.free| - 1] else s.free,
         heap := if pooled then s.heap else s.heap + multiset{cell},
         nextCell := if pooled then s.nextCell else s.nextCell + 1,
         msgs := s.msgs + [Msg(cell, |s.sent|, address, destructor)],
         sent := s.sent + [Sent(address, destructor, |s.ops|)])
  }

  /** s_bus_async_subscribe and s_bus_async_unsubscribe. */
  function DoRequest(s: Bus, op: Op): Bus {
    if op.address == ADDRESS_CLOSE || !s.running then s else s.(subs := s.subs + [op], ops := s.ops + [op])
  }

  /** The dispatcher copies out both queues. */
  function DoWake(s: Bus): Bus {
    s.(pendingSubs := s.subs, subs := [], pending := s.msgs, msgs := [], cursor := 0, phase := Applying)
  }

  /** s_bus_apply_listeners, one request at a time, then on to the messages if there are any. */
  function DoApply(s: Bus): Bus {
    if s.pendingSubs != [] then
      s.(slots := Apply(s.slots, s.pendingSubs[0]), pendingSubs := s.pendingSubs[1..], applied := s.applied + 1)
    else s.(phase := if s.pending == [] then Checking else Starting)
  }

  /** s_bus_async_deliver_messages: the next message, or the free list after the last. */
  function DoBegin(s: Bus): Bus {
    if s.cursor < |s.pending| then
      s.(phase := Calling(Recipients(s.slots, s.pending[s.cursor].address)), shown := s.shown + [s.applied])
    else s.(phase := Freeing)
  }

  /** One listener's callback, or s_bus_message_clean_up after the last. */
  function DoCall(s: Bus): Bus
    requires s.phase.Calling? && s.cursor < |s.pending|
  {
    var m := s.pending[s.cursor];
    if s.phase.rest != [] then
      s.(phase := Calling(s.phase.rest[1..]), log := s.log + [Called(s.phase.rest[0], m.address, m.id)])
    else
      s.(phase := Starting, cursor := s.cursor + 1, pending := s.pending[s.cursor := m.(destructor := false)],
         log := s.log + Destruction(m.destructor, m.id))
  }

  function Destruction(destructor: bool, id: nat): seq<Event> {
    if destructor then [Destroyed(id)] else []
  }

  /** The cells of the pool among the messages, in order. */
  function Pooled(ms: seq<Msg>, pool: nat): seq<nat> {
    if ms == [] then [] else (if ms[0].cell < pool then [ms[0].cell] else []) + Pooled(ms[1..], pool)
  }

  function Heaped(ms: seq<Msg>, pool: nat): multiset<nat> {
    if ms == [] then multiset{}
    else (if ms[0].cell < pool then multiset{} else multiset{ms[0].cell}) + Heaped(ms[1..], pool)
  }

  /** What freeing the messages destroys once more: those whose destructor was not cleared. */
  function Leftover(ms: seq<Msg>): seq<Event> {
    if ms == [] then [] else Destruction(ms[0].destructor, ms[0].id) + Leftover(ms[1..])
  }

  /** s_bus_async_free_message for every pending message, under the lock. */
  function DoRecycle(s: Bus): Bus {
    s.(free := s.free + Pooled(s.pending, s.pool), heap := s.heap - Heaped(s.pending, s.pool),
       log := s.log + Leftover(s.pending), pending := [], cursor := 0, phase := Checking)
  }

  /** The loop condition: one more round after the shutdown was seen. */
  function DoCheck(s: Bus): Bus {
    if s.running then s.(phase := Waiting)
    else if s.drains > 0 then s.(drains := s.drains - 1, phase := Waiting)
    else s.(phase := Exited)
  }

  function Do(s: Bus, step: Step): Bus
    requires Enabled(s, step)
  {
    match step
    case Send(address, destructor) => DoSend(s, address, destructor)
    case Request(op) => DoRequest(s, op)
    case CleanUp => s.(running := false)
    case Wake => DoWake(s)
    case ApplyOne => DoApply(s)
    case Begin => DoBegin(s)
    case Call => DoCall(s)
    case Recycle => DoRecycle(s)
    case Check => DoCheck(s)
  }

  // ---------- the invariant ----------

  /** Messages whose delivery is complete. */
  function Finished(s: Bus): int {
    |s.shown| - (if s.phase.Calling? then 1 else 0)
  }

  /** Requests are applied in the order they were accepted. */
  ghost predicate OpsOk(s: Bus) {
    && s.applied <= |s.ops| && s.slots == Table(s.ops[..s.applied])
    && s.ops[s.applied..] == s.pendingSubs + s.subs
    && (!s.phase.Applying? ==> s.pendingSubs == [])
  }

  /** The undelivered messages, in queue order, are the sends not yet finished, in send order. */
  ghost predicate QueueOk(s: Bus) {
    && s.cursor <= |s.pending| && 0 <= Finished(s)
    && |s.sent| == Finished(s) + (|s.pending| - s.cursor) + |s.msgs|
    && (forall i :: s.cursor <= i < |s.pending| ==> Carries(s.pending[i], s.sent, Finished(s) + i - s.cursor))
    && (forall i :: 0 <= i < |s.msgs| ==> Carries(s.msgs[i], s.sent, Finished(s) + (|s.pending| - s.cursor) + i))
    && (s.phase.Waiting? || s.phase.Checking? || s.phase.Exited? ==> s.pending == [])
    && (s.phase.Applying? ==> s.cursor == 0)
    && (s.phase.Calling? ==> s.cursor < |s.pending|)
    && (s.phase.Freeing? ==> s.cursor == |s.pending|)
  }

  predicate Carries(m: Msg, sent: seq<Sent>, id: int) {
    0 <= id < |sent| && m.id == id && m.address == sent[id].address && m.destructor == sent[id].destructor
  }

  /** A message delivered or about to be has all requests accepted before it applied. */
  ghost predicate OrderOk(s: Bus) {
    && |s.shown| <= |s.sent|
    && (forall i :: 0 <= i < |s.sent| ==> s.sent[i].opsBefore <= |s.ops|)
    && (forall i :: 0 <= i < |s.shown| ==> s.sent[i].opsBefore <= s.shown[i] <= |s.ops|)
    && (forall i :: |s.shown| <= i < |s.sent| - |s.msgs| ==> s.sent[i].opsBefore <= s.applied + |s.pendingSubs|)
    && (s.phase.Calling? ==> s.shown != [] && s.shown[|s.shown| - 1] == s.applied)
  }

  /** Messages already delivered have no destructor left to call. */
  ghost predicate ClearedOk(s: Bus) {
    forall i :: 0 <= i < s.cursor <= |s.pending| ==> !s.pending[i].destructor
  }

  /** After the last round has begun nothing can be queued any more. */
  ghost predicate ShutOk(s: Bus) {
    && s.drains <= 1 && (s.drains == 0 ==> !s.running)
    && (s.phase.Exited? ==> s.drains == 0)
    && (s.drains == 0 && !s.phase.Waiting? ==> s.msgs == [] && s.subs == [])
  }

  /** Every pooled message is on the free list or in one of the queues, exactly once; the others are all accounted for. */
  ghost predicate PoolOk(s: Bus) {
    && multiset(s.free) + multiset(Pooled(s.pending, s.pool)) + multiset(Pooled(s.msgs, s.pool)) == multiset(seq(s.pool, i => i))
    && s.heap == Heaped(s.pending, s.pool) + Heaped(s.msgs, s.pool)
    && s.pool <= s.nextCell
  }

  /** The calls of a message to a list of listeners. */
  function Calls(ls: seq<Listener>, address: nat, id: nat): seq<Event> {
    seq(|ls|, i requires 0 <= i < |ls| => Called(ls[i], address, id))
  }

  /** The sends, the numbers of requests applied when each was delivered, and the requests. */
  datatype History = History(sent: seq<Sent>, shown: seq<nat>, ops: seq<Op>)

  predicate Covers(h: History, n: int) {
    0 <= n <= |h.sent| && n <= |h.shown| && forall i :: 0 <= i < n ==> h.shown[i] <= |h.ops|
  }

  /** What message i does: its calls, to the listeners subscribed after shown[i] requests, then its destruction. */
  function Delivery(h: History, i: nat): seq<Event>
    requires i < |h.sent| && i < |h.shown| && h.shown[i] <= |h.ops|
  {
    var m := h.sent[i];
    Calls(Recipients(Table(h.ops[..h.shown[i]]), m.address), m.address, i) + Destruction(m.destructor, i)
  }

  /** The deliveries of the first n messages, in send order. */
  function Script(h: History, n: nat): seq<Event>
    requires Covers(h, n)
  {
    if n == 0 then [] else Script(h, n - 1) + Delivery(h, n - 1)
  }

  function Past(s: Bus): History {
    History(s.sent, s.shown, s.ops)
  }

  /** The calls already made, when rest are still to be made. */
  function Made(all: seq<Listener>, rest: seq<Listener>, address: nat, id: nat): seq<Event> {
    if |rest| <= |all| then Calls(all[..|all| - |rest|], address, id) else []
  }

  predicate IsRest(all: seq<Listener>, rest: seq<Listener>) {
    |rest| <= |all| && all[|all| - |rest|..] == rest
  }

  /** The part of the current message's delivery that is done. */
  function Part(s: Bus): seq<Event>
    requires CursorOk(s)
  {
    if !s.phase.Calling? then []
    else
      var m := s.pending[s.cursor];
      Made(Recipients(s.slots, m.address), s.phase.rest, m.address, m.id)
  }

  predicate CursorOk(s: Bus) {
    s.phase.Calling? ==> s.cursor < |s.pending|
  }

  ghost predicate LogOk(s: Bus)
    requires CursorOk(s)
  {
    && Covers(Past(s), Finished(s))
    && s.log == Script(Past(s), Finished(s)) + Part(s)
    && (s.phase.Calling? ==> IsRest(Recipients(s.slots, s.pending[s.cursor].address), s.phase.rest))
  }

  ghost predicate Inv(s: Bus) {
    OpsOk(s) && QueueOk(s) && OrderOk(s) && ClearedOk(s) && ShutOk(s) && PoolOk(s) && LogOk(s)
  }

  // ---------- every step keeps the invariant ----------

  lemma {:induction false} InitInv(pool: nat)
    ensures Inv(Init(pool))
  {
    var s := Init(pool);
    assert s.ops[..0] == [] && s.ops[0..] == [];
    assert Pooled([], pool) == [];
  }

  lemma ApplyOps(s: Bus)
    requires OpsOk(s) && s.phase.Applying?
    ensures OpsOk(DoApply(s))
  {
    hide Apply;
    if s.pendingSubs != [] {
      assert s.ops[s.applied] == s.ops[s.applied..][0] == s.pendingSubs[0];
      var longer := s.ops[..s.applied + 1];
      assert longer[..|longer| - 1] == s.ops[..s.applied];
      assert s.ops[s.applied + 1..] == s.ops[s.applied..][1..];
    }
  }

  lemma RequestOps(s: Bus, op: Op)
    requires OpsOk(s)
    ensures OpsOk(DoRequest(s, op))
  {
    var s' := DoRequest(s, op);
    hide Table;
    if s' != s {
      assert s'.ops[..s.applied] == s.ops[..s.applied];
      assert s'.ops[s.applied..] == s.ops[s.applied..] + [op];
    }
  }

  lemma OpsKept(s: Bus, step: Step)
    requires OpsOk(s) && Enabled(s, step)
    ensures OpsOk(Do(s, step))
  {
    hide Table, Apply, Recipients, Pooled, Heaped, Leftover, DoApply, DoRequest;
    match step
    case Request(op) => RequestOps(s, op);
    case ApplyOne => ApplyOps(s);
    case Wake => assert s.pendingSubs + s.subs == s.subs;
    case _ =>
  }

  lemma QueueKept(s: Bus, step: Step)
    requires QueueOk(s) && Enabled(s, step)
    ensures QueueOk(Do(s, step))
  {
    hide QueueOk, DoSend, DoWake, DoApply, DoBegin, DoCall, DoRecycle, DoCheck;
    match step
    case Send(address, destructor) => SendQueue(s, address, destructor);
    case Request(op) => QuietQueue(s, DoRequest(s, op));
    case CleanUp => QuietQueue(s, s.(running := false));
    case Wake => WakeQueue(s);
    case ApplyOne => ApplyQueue(s);
    case Begin => BeginQueue(s);
    case Call => CallQueue(s);
    case Recycle => RecycleQueue(s);
    case Check => CheckQueue(s);
  }

  lemma QuietQueue(s: Bus, s': Bus)
    requires QueueOk(s)
    requires s'.msgs == s.msgs && s'.pending == s.pending && s'.cursor == s.cursor && s'.phase == s.phase
    requires s'.sent == s.sent && s'.shown == s.shown
    ensures QueueOk(s')
  {
    hide Carries;
  }

  lemma WakeQueue(s: Bus)
    requires QueueOk(s) && s.phase.Waiting?
    ensures QueueOk(DoWake(s))
  {
    hide Carries;
  }

  lemma ApplyQueue(s: Bus)
    requires QueueOk(s) && s.phase.Applying?
    ensures QueueOk(DoApply(s))
  {
    hide Carries, Apply;
  }

  lemma BeginQueue(s: Bus)
    requires QueueOk(s) && s.phase.Starting?
    ensures QueueOk(DoBegin(s))
  {
    hide Carries, Recipients;
  }

  lemma CallQueue(s: Bus)
    requires QueueOk(s) && s.phase.Calling? && s.cursor < |s.pending|
    ensures QueueOk(DoCall(s))
  {
    hide Carries, Destruction;
  }

  lemma RecycleQueue(s: Bus)
    requires QueueOk(s) && s.phase.Freeing?
    ensures QueueOk(DoRecycle(s))
  {
    hide Carries, Pooled, Heaped, Leftover;
  }

  lemma CheckQueue(s: Bus)
    requires QueueOk(s) && s.phase.Checking?
    ensures QueueOk(DoCheck(s))
  {
    hide Carries;
  }

  lemma SendQueue(s: Bus, address: nat, destructor: bool)
    requires QueueOk(s)
    ensures QueueOk(DoSend(s, address, destructor))
  {
    var s' := DoSend(s, address, destructor);
    assert forall m, i :: Carries(m, s.sent, i) ==> Carries(m, s'.sent, i);
  }

  lemma OrderKept(s: Bus, step: Step)
    requires OpsOk(s) && QueueOk(s) && OrderOk(s) && Enabled(s, step)
    ensures OrderOk(Do(s, step))
  {
    hide Recipients, Apply, Pooled, Heaped, Leftover, Table, Carries;
    assert |s.ops| == s.applied + |s.pendingSubs| + |s.subs| by {
      assert |s.ops[s.applied..]| == |s.pendingSubs + s.subs|;
    }
  }

  lemma ClearedKept(s: Bus, step: Step)
    requires QueueOk(s) && ClearedOk(s) && Enabled(s, step)
    ensures ClearedOk(Do(s, step))
  {
    hide Recipients, Apply, Pooled, Heaped, Leftover, Carries;
  }

  lemma ShutKept(s: Bus, step: Step)
    requires ShutOk(s) && Enabled(s, step)
    ensures ShutOk(Do(s, step))
  {
    hide Recipients, Apply, Pooled, Heaped, Leftover;
  }

  lemma {:induction false} PooledJoin(a: seq<Msg>, b: seq<Msg>, pool: nat)
    ensures Pooled(a + b, pool) == Pooled(a, pool) + Pooled(b, pool)
    ensures Heaped(a + b, pool) == Heaped(a, pool) + Heaped(b, pool)
  {
    if a == [] {
      assert a + b == b;
    } else {
      assert (a + b)[1..] == a[1..] + b;
      PooledJoin(a[1..], b, pool);
    }
  }

  lemma {:induction false} PooledSame(a: seq<Msg>, b: seq<Msg>, pool: nat)
    requires |a| == |b| && forall i :: 0 <= i < |a| ==> a[i].cell == b[i].cell
    ensures Pooled(a, pool) == Pooled(b, pool) && Heaped(a, pool) == Heaped(b, pool)
  {
    if a != [] {
      PooledSame(a[1..], b[1..], pool);
    }
  }

  lemma PooledOne(ms: seq<Msg>, m: Msg, pool: nat)
    ensures m.cell < pool ==> Pooled(ms + [m], pool) == Pooled(ms, pool) + [m.cell] && Heaped(ms + [m], pool) == Heaped(ms, pool)
    ensures m.cell >= pool ==> Pooled(ms + [m], pool) == Pooled(ms, pool) && Heaped(ms + [m], pool) == Heaped(ms, pool) + multiset{m.cell}
  {
    PooledJoin(ms, [m], pool);
    assert [m][1..] == [];
    assert Pooled([], pool) == [] && Heaped([], pool) == multiset{};
    assert Pooled([m], pool) == (if m.cell < pool then [m.cell] else []) + Pooled([], pool);
    assert Heaped([m], pool) == (if m.cell < pool then multiset{} else multiset{m.cell}) + Heaped([], pool);
  }

  lemma SendPool(s: Bus, address: nat, destructor: bool)
    requires PoolOk(s)
    ensures PoolOk(DoSend(s, address, destructor))
  {
    hide Pooled, Heaped;
    if s.running {
      var s' := DoSend(s, address, destructor);
      var m := s'.msgs[|s.msgs|];
      PooledOne(s.msgs, m, s.pool);
      if s.free != [] {
        var n := |s.free| - 1;
        assert s.free == s.free[..n] + [s.free[n]];
        PoolCell(s, s.free[n]);
        assert multiset(s.free) == multiset(s.free[..n]) + multiset{s.free[n]};
        assert multiset(Pooled(s'.msgs, s.pool)) == multiset(Pooled(s.msgs, s.pool)) + multiset{m.cell};
      }
    }
  }

  /** Free cells belong to the pool. */
  lemma PoolCell(s: Bus, c: nat)
    requires PoolOk(s) && c in s.free
    ensures c < s.pool
  {
    assert c in multiset(s.free);
    assert c in multiset(seq(s.pool, i => i));
    assert c in seq(s.pool, i => i);
  }

  lemma PooledNone(pool: nat)
    ensures Pooled([], pool) == [] && Heaped([], pool) == multiset{}
  {
  }

  /** Steps that touch neither the lists of messages nor the cells. */
  lemma PoolSame(s: Bus, s': Bus)
    requires PoolOk(s) && s'.pool == s.pool && s'.free == s.free && s'.heap == s.heap && s'.nextCell == s.nextCell
    requires s'.msgs == s.msgs && s'.pending == s.pending
    ensures PoolOk(s')
  {
  }

  lemma WakePool(s: Bus)
    requires QueueOk(s) && PoolOk(s) && Enabled(s, Wake)
    ensures PoolOk(DoWake(s))
  {
    hide Pooled, Heaped, Carries;
    PooledNone(s.pool);
  }

  lemma CallPool(s: Bus)
    requires PoolOk(s) && Enabled(s, Call)
    ensures PoolOk(DoCall(s))
  {
    hide Pooled, Heaped, Destruction;
    PooledSame(s.pending, DoCall(s).pending, s.pool);
  }

  lemma PoolKept(s: Bus, step: Step)
    requires QueueOk(s) && PoolOk(s) && Enabled(s, step)
    ensures PoolOk(Do(s, step))
  {
    hide PoolOk, QueueOk, DoSend, DoCall, DoRecycle, DoWake, Recipients, Apply, Leftover;
    match step
    case Send(address, destructor) => SendPool(s, address, destructor);
    case Wake => WakePool(s);
    case Call => CallPool(s);
    case Recycle => RecyclePool(s);
    case _ => PoolSame(s, Do(s, step));
  }

  lemma RecyclePool(s: Bus)
    requires PoolOk(s)
    ensures PoolOk(DoRecycle(s))
  {
    hide Pooled, Heaped, Leftover;
    PooledNone(s.pool);
    var back := Pooled(s.pending, s.pool);
    assert multiset(s.free + back) == multiset(s.free) + multiset(back);
  }

  /** Later sends, requests and deliveries leave the script of earlier messages as it was. */
  lemma {:induction false} ScriptSame(h: History, h': History, n: nat)
    requires Covers(h, n) && h.sent <= h'.sent && h.shown <= h'.shown && h.ops <= h'.ops
    ensures Covers(h', n) && Script(h, n) == Script(h', n)
  {
    if n > 0 {
      ScriptSame(h, h', n - 1);
      assert h.ops[..h.shown[n - 1]] == h'.ops[..h.shown[n - 1]];
      hide Calls, Recipients, Table;
    }
  }

  /** A step that neither delivers nor frees. */
  lemma QuietLog(s: Bus, s': Bus)
    requires CursorOk(s) && LogOk(s)
    requires s.sent <= s'.sent && s.shown == s'.shown && s.ops <= s'.ops && s'.log == s.log
    requires if s.phase.Calling? then s'.phase == s.phase && s'.pending == s.pending && s'.cursor == s.cursor && s'.slots == s.slots
             else !s'.phase.Calling?
    ensures LogOk(s')
  {
    hide Script, Recipients, Made, IsRest;
    ScriptSame(Past(s), Past(s'), Finished(s));
  }

  lemma MadeNone(all: seq<Listener>, address: nat, id: nat)
    ensures Made(all, all, address, id) == [] && IsRest(all, all)
  {
    assert all[..0] == [] && all[0..] == all;
  }

  lemma MadeOne(all: seq<Listener>, rest: seq<Listener>, address: nat, id: nat)
    requires IsRest(all, rest) && rest != []
    ensures Made(all, rest[1..], address, id) == Made(all, rest, address, id) + [Called(rest[0], address, id)]
    ensures IsRest(all, rest[1..])
  {
    var done := |all| - |rest|;
    assert all[done] == all[done..][0];
    assert all[done + 1..] == all[done..][1..];
  }

  lemma MadeAll(all: seq<Listener>, address: nat, id: nat)
    ensures Made(all, [], address, id) == Calls(all, address, id)
  {
    assert all[..|all|] == all;
  }

  lemma BeginLog(s: Bus)
    requires s.phase.Starting? && LogOk(s)
    ensures LogOk(DoBegin(s))
  {
    var s' := DoBegin(s);
    BeginEffect(s);
    hide Script, Recipients, Made, IsRest, DoBegin, Covers;
    ScriptSame(Past(s), Past(s'), Finished(s));
  }

  lemma BeginEffect(s: Bus)
    requires s.phase.Starting?
    ensures var s' := DoBegin(s);
            && s'.sent == s.sent && s.shown <= s'.shown && s'.ops == s.ops && s'.log == s.log && Finished(s') == Finished(s)
            && (s'.phase.Calling? ==> s'.cursor < |s'.pending|) && Part(s') == Part(s)
            && (s'.phase.Calling? ==> IsRest(Recipients(s'.slots, s'.pending[s'.cursor].address), s'.phase.rest))
  {
    hide Recipients, Made, IsRest;
    if s.cursor < |s.pending| {
      var m := s.pending[s.cursor];
      MadeNone(Recipients(s.slots, m.address), m.address, m.id);
    }
  }

  /** One more callback. */
  lemma CallLog(s: Bus)
    requires s.phase.Calling? && s.phase.rest != [] && s.cursor < |s.pending| && LogOk(s)
    ensures DoCall(s).phase.Calling? && DoCall(s).cursor < |DoCall(s).pending| && LogOk(DoCall(s))
  {
    CallEffect(s);
    hide Script, Recipients, Made, IsRest, DoCall, Covers;
    var m := s.pending[s.cursor];
    Assoc(Script(Past(s), Finished(s)), Part(s), [Called(s.phase.rest[0], m.address, m.id)]);
  }

  lemma CallEffect(s: Bus)
    requires s.phase.Calling? && s.phase.rest != [] && s.cursor < |s.pending|
    requires IsRest(Recipients(s.slots, s.pending[s.cursor].address), s.phase.rest)
    ensures var s', m := DoCall(s), s.pending[s.cursor];
            && s'.sent == s.sent && s'.shown == s.shown && s'.ops == s.ops && s'.slots == s.slots
            && s'.pending == s.pending && s'.cursor == s.cursor && s'.phase.Calling?
            && s'.log == s.log + [Called(s.phase.rest[0], m.address, m.id)]
            && Part(s') == Part(s) + [Called(s.phase.rest[0], m.address, m.id)]
            && IsRest(Recipients(s.slots, m.address), s'.phase.rest)
  {
    var m := s.pending[s.cursor];
    hide Recipients, Made, IsRest;
    MadeOne(Recipients(s.slots, m.address), s.phase.rest, m.address, m.id);
  }

  /** The message being delivered is the first unfinished send, shown to the table as it is. */
  lemma CurrentMessage(s: Bus)
    requires OpsOk(s) && QueueOk(s) && OrderOk(s) && s.phase.Calling?
    ensures var n := Finished(s);
            && 0 <= n < |s.sent| && n < |s.shown| && s.shown[n] <= |s.ops| && s.slots == Table(s.ops[..s.shown[n]])
            && s.cursor < |s.pending| && Carries(s.pending[s.cursor], s.sent, n)
  {
    hide Table, Carries;
  }

  /** The last callback made: the message is destroyed and its delivery complete. */
  lemma EndLog(s: Bus)
    requires OpsOk(s) && QueueOk(s) && OrderOk(s) && s.phase.Calling? && s.phase.rest == [] && LogOk(s)
    ensures !DoCall(s).phase.Calling? && LogOk(DoCall(s))
  {
    hide OpsOk, QueueOk, OrderOk, Recipients, Table, Destruction, Script, Calls, Made, IsRest, DoCall, Covers, Past;
    CurrentMessage(s);
    var n, m := Finished(s), s.pending[s.cursor];
    var all := Recipients(s.slots, m.address);
    EndEffect(s);
    PastIs(s);
    MadeAll(all, m.address, n);
    ScriptNext(Past(s), n, all);
    Assoc(Script(Past(s), n), Calls(all, m.address, n), Destruction(m.destructor, n));
    assert Script(Past(s), n + 1) + [] == Script(Past(s), n + 1);
  }

  lemma PastIs(s: Bus)
    ensures Past(s).sent == s.sent && Past(s).shown == s.shown && Past(s).ops == s.ops
  {
  }

  lemma EndEffect(s: Bus)
    requires s.phase.Calling? && s.phase.rest == [] && s.cursor < |s.pending|
    ensures var s', m := DoCall(s), s.pending[s.cursor];
            && Past(s') == Past(s) && s'.phase.Starting? && Finished(s') == Finished(s) + 1
            && s'.log == s.log + Destruction(m.destructor, m.id)
  {
  }

  lemma ScriptNext(h: History, n: nat, all: seq<Listener>)
    requires Covers(h, n) && n < |h.sent| && n < |h.shown| && h.shown[n] <= |h.ops|
    requires all == Recipients(Table(h.ops[..h.shown[n]]), h.sent[n].address)
    ensures Covers(h, n + 1)
    ensures Script(h, n + 1) == Script(h, n) + (Calls(all, h.sent[n].address, n) + Destruction(h.sent[n].destructor, n))
  {
    hide Recipients, Table, Calls, Destruction;
  }

  lemma {:induction false} NothingLeft(ms: seq<Msg>)
    requires forall i :: 0 <= i < |ms| ==> !ms[i].destructor
    ensures Leftover(ms) == []
  {
    if ms != [] {
      NothingLeft(ms[1..]);
    }
  }

  lemma RecycleLog(s: Bus)
    requires QueueOk(s) && ClearedOk(s) && s.phase.Freeing? && LogOk(s)
    ensures LogOk(DoRecycle(s))
  {
    NothingLeft(s.pending);
    hide QueueOk, LogOk, Leftover, Pooled, Heaped;
    assert s.log + [] == s.log;
    QuietLog(s, DoRecycle(s));
  }

  lemma LogKept(s: Bus, step: Step)
    requires OpsOk(s) && QueueOk(s) && OrderOk(s) && ClearedOk(s) && LogOk(s)
    requires Enabled(s, step) && QueueOk(Do(s, step))
    ensures LogOk(Do(s, step))
  {
    hide OpsOk, OrderOk, LogOk, ClearedOk, Apply, Recipients, Pooled, Heaped, Leftover, Carries;
    match step
    case Begin => BeginLog(s);
    case Call =>
      if s.phase.rest != [] {
        CallLog(s);
      } else {
        EndLog(s);
      }
    case Recycle => RecycleLog(s);
    case Send(address, destructor) => QuietLog(s, DoSend(s, address, destructor));
    case Request(op) => QuietLog(s, DoRequest(s, op));
    case CleanUp => QuietLog(s, s.(running := false));
    case Wake => QuietLog(s, DoWake(s));
    case ApplyOne => QuietLog(s, DoApply(s));
    case Check => QuietLog(s, DoCheck(s));
  }

  lemma StepKeeps(s: Bus, step: Step)
    requires Inv(s) && Enabled(s, step)
    ensures Inv(Do(s, step))
  {
    hide OpsOk, QueueOk, OrderOk, ClearedOk, ShutOk, PoolOk, LogOk, Do, Enabled;
    OpsKept(s, step);
    QueueKept(s, step);
    OrderKept(s, step);
    ClearedKept(s, step);
    ShutKept(s, step);
    PoolKept(s, step);
    LogKept(s, step);
  }

  // ---------- every run ----------

  /** A run: the steps in turn, those not enabled passed over; so every interleaving of clients and dispatcher is one. */
  function Run(pool: nat, steps: seq<Step>): Bus {
    if steps == [] then Init(pool)
    else
      var s, step := Run(pool, steps[..|steps| - 1]), steps[|steps| - 1];
      if Enabled(s, step) then Do(s, step) else s
  }

  lemma {:induction false} RunInv(pool: nat, steps: seq<Step>)
    ensures Inv(Run(pool, steps))
  {
    if steps == [] {
      InitInv(pool);
    } else {
      var n := |steps| - 1;
      RunInv(pool, steps[..n]);
      hide Inv, Enabled, Do;
      var s := Run(pool, steps[..n]);
      if Enabled(s, steps[n]) {
        StepKeeps(s, steps[n]);
      }
    }
  }

  // ---------- what every run guarantees ----------

  /** What was called and destroyed so far is a prefix of the sends' deliveries, complete up to the current message. */
  lemma InOrder(pool: nat, steps: seq<Step>)
    ensures var s := Run(pool, steps);
            QueueOk(s) && Covers(Past(s), Finished(s)) && s.log == Script(Past(s), Finished(s)) + Part(s)
  {
    RunInv(pool, steps);
    hide QueueOk, OrderOk, Run;
  }

  /** When the dispatcher has exited, every send was delivered, every request applied, and all messages are back. */
  lemma AtExit(pool: nat, steps: seq<Step>)
    requires Run(pool, steps).phase.Exited?
    ensures var s := Run(pool, steps);
            && OrderOk(s) && |s.shown| == |s.sent| && Covers(Past(s), |s.sent|) && s.log == Script(Past(s), |s.sent|)
            && s.msgs == [] && s.subs == [] && s.applied == |s.ops|
            && multiset(s.free) == multiset(seq(s.pool, i => i)) && s.heap == multiset{}
  {
    RunInv(pool, steps);
    hide Run;
    var s := Run(pool, steps);
    ExitState(s);
  }

  lemma ExitState(s: Bus)
    requires Inv(s) && s.phase.Exited?
    ensures |s.shown| == |s.sent| && Covers(Past(s), |s.sent|) && s.log == Script(Past(s), |s.sent|)
    ensures s.msgs == [] && s.subs == [] && s.applied == |s.ops|
    ensures multiset(s.free) == multiset(seq(s.pool, i => i)) && s.heap == multiset{}
  {
    assert Finished(s) == |s.sent|;
    assert Script(Past(s), |s.sent|) + [] == Script(Past(s), |s.sent|);
    assert s.ops[s.applied..] == [];
    PooledNone(s.pool);
    hide Script, Table, Pooled, Heaped;
  }

  lemma {:induction false} CallsCount(ls: seq<Listener>, address: nat, id: nat, e: Event)
    ensures multiset(Calls(ls, address, id))[e] ==
            if e.Called? && e.address == address && e.id == id then multiset(ls)[e.l] else 0
  {
    if ls != [] {
      var n := |ls| - 1;
      CallsCount(ls[..n], address, id, e);
      assert Calls(ls, address, id) == Calls(ls[..n], address, id) + [Called(ls[n], address, id)];
      assert ls == ls[..n] + [ls[n]];
    } else {
      assert Calls(ls, address, id) == [];
    }
  }

  /** What the delivery of message i contributes of an event. */
  lemma DeliveryCount(h: History, i: nat, e: Event)
    requires i < |h.sent| && i < |h.shown| && h.shown[i] <= |h.ops|
    ensures multiset(Delivery(h, i))[e] ==
            if e.id != i then 0
            else if e.Destroyed? then (if h.sent[i].destructor then 1 else 0)
            else if e.address != h.sent[i].address then 0
            else multiset(Recipients(Table(h.ops[..h.shown[i]]), e.address))[e.l]
  {
    var m := h.sent[i];
    var all := Recipients(Table(h.ops[..h.shown[i]]), m.address);
    CallsCount(all, m.address, i, e);
    hide Recipients, Table, Calls;
  }

  /** Events of message i occur in its own delivery only. */
  lemma {:induction false} ScriptCount(h: History, n: nat, e: Event)
    requires Covers(h, n)
    ensures multiset(Script(h, n))[e] == if e.id < n then multiset(Delivery(h, e.id))[e] else 0
  {
    hide Delivery;
    if n > 0 {
      ScriptCount(h, n - 1, e);
      DeliveryCount(h, n - 1, e);
    }
  }

  /**
    At exit each message was destroyed once if it had a destructor, and each
    listener was called once per subscription in force, counted after some number
    of requests that includes all those accepted before the send.
   */
  lemma DeliveredTo(pool: nat, steps: seq<Step>, i: nat, l: Listener)
    requires Run(pool, steps).phase.Exited? && i < |Run(pool, steps).sent|
    ensures var s := Run(pool, steps);
            && i < |s.shown| && s.sent[i].opsBefore <= s.shown[i] <= |s.ops|
            && multiset(s.log)[Destroyed(i)] == (if s.sent[i].destructor then 1 else 0)
            && multiset(s.log)[Called(l, s.sent[i].address, i)] ==
               Net(s.ops[..s.shown[i]], ADDRESS_ALL, l) + Net(s.ops[..s.shown[i]], s.sent[i].address, l)
  {
    AtExit(pool, steps);
    hide Run, Script, Delivery, Net, Recipients, Table;
    var s := Run(pool, steps);
    var a := s.sent[i].address;
    ScriptCount(Past(s), |s.sent|, Destroyed(i));
    ScriptCount(Past(s), |s.sent|, Called(l, a, i));
    DeliveryCount(Past(s), i, Destroyed(i));
    DeliveryCount(Past(s), i, Called(l, a, i));
    CallsPerListener(s.ops[..s.shown[i]], a, l);
  }

  // ---------- the same in terms of what clients did ----------

  /** The requests clients made, in order, but for those to the closing address and those after clean_up. */
  function Requested(steps: seq<Step>): seq<Op> {
    if steps == [] then []
    else
      var before, step := steps[..|steps| - 1], steps[|steps| - 1];
      Requested(before) + (if step.Request? && step.op.address != ADDRESS_CLOSE && CleanUp !in before then [step.op] else [])
  }

  /** The sends clients made before clean_up, each with the number of requests before it. */
  function SentBy(steps: seq<Step>): seq<Sent> {
    if steps == [] then []
    else
      var before, step := steps[..|steps| - 1], steps[|steps| - 1];
      SentBy(before) + (if step.Send? && CleanUp !in before then [Sent(step.address, step.destructor, |Requested(before)|)] else [])
  }

  lemma AcceptedNext(s: Bus, step: Step)
    ensures Enabled(s, step) ==>
              var s' := Do(s, step);
              && s'.running == (s.running && step != CleanUp)
              && s'.ops == s.ops + (if step.Request? && step.op.address != ADDRESS_CLOSE && s.running then [step.op] else [])
              && s'.sent == s.sent + (if step.Send? && s.running then [Sent(step.address, step.destructor, |s.ops|)] else [])
    ensures !Enabled(s, step) ==> DispatcherStep(step)
  {
    hide Recipients, Pooled, Heaped, Leftover, Apply, Destruction;
  }

  /** In every run, whatever the dispatcher does, the bus has accepted exactly those, and is running until clean_up. */
  lemma {:induction false} Accepted(pool: nat, steps: seq<Step>)
    ensures var s := Run(pool, steps);
            s.running == (CleanUp !in steps) && s.ops == Requested(steps) && s.sent == SentBy(steps)
  {
    hide Do, Enabled;
    if steps != [] {
      var n := |steps| - 1;
      Accepted(pool, steps[..n]);
      AcceptedNext(Run(pool, steps[..n]), steps[n]);
      assert steps == steps[..n] + [steps[n]];
      assert CleanUp in steps <==> CleanUp in steps[..n] || steps[n] == CleanUp;
    }
  }

  /** How many subscriptions of a listener to an address are in force after the steps. */
  function Subscribed(steps: seq<Step>, address: nat, l: Listener): nat {
    if steps == [] || address == ADDRESS_CLOSE then 0
    else
      var before, step := steps[..|steps| - 1], steps[|steps| - 1];
      var n := Subscribed(before, address, l);
      if CleanUp in before then n
      else if step == Request(Add(address, l)) then n + 1
      else if step == Request(Remove(address, l)) && n > 0 then n - 1
      else n
  }

  lemma {:induction false} SubscribedIsNet(steps: seq<Step>, address: nat, l: Listener)
    ensures Subscribed(steps, address, l) == Net(Requested(steps), address, l)
  {
    if steps != [] && address != ADDRESS_CLOSE {
      var before, step := steps[..|steps| - 1], steps[|steps| - 1];
      SubscribedIsNet(before, address, l);
      if step.Request? && step.op.address != ADDRESS_CLOSE && CleanUp !in before {
        assert Requested(steps)[..|Requested(steps)| - 1] == Requested(before);
      } else {
        assert Requested(steps) == Requested(before);
      }
    }
  }

  /** Requests of a longer run continue those of a shorter one. */
  lemma {:induction false} RequestedGrows(steps: seq<Step>, q: nat)
    requires q <= |steps|
    ensures Requested(steps[..q]) <= Requested(steps) && |SentBy(steps[..q])| <= |SentBy(steps)|
    ensures SentBy(steps[..q]) <= SentBy(steps)
    decreases |steps|
  {
    if q == |steps| {
      assert steps[..q] == steps;
    } else {
      RequestedGrows(steps[..|steps| - 1], q);
      assert steps[..|steps| - 1][..q] == steps[..q];
    }
  }

  /** Every number of requests from that of a prefix on is reached at some later moment. */
  lemma {:induction false} MomentOf(steps: seq<Step>, q: nat, n: nat) returns (r: nat)
    requires q <= |steps| && |Requested(steps[..q])| <= n <= |Requested(steps)|
    ensures q <= r <= |steps| && Requested(steps)[..n] == Requested(steps[..r])
    decreases |steps|
  {
    if n == |Requested(steps)| || q == |steps| {
      r := |steps|;
      assert steps[..r] == steps;
    } else {
      var before := steps[..|steps| - 1];
      assert before[..q] == steps[..q];
      r := MomentOf(before, q, n);
      assert before[..r] == steps[..r];
    }
  }

  /**
    At exit, for every send a client made before clean_up, the q-th step of the run: its destructor, if any, was
    called once, and every listener was called once per subscription to all addresses and once per subscription
    to the message's address that was in force at one moment r of the run, not before the send.
   */
  lemma DeliveredAt(pool: nat, steps: seq<Step>, q: nat, l: Listener) returns (r: nat)
    requires Run(pool, steps).phase.Exited? && q < |steps| && steps[q].Send? && CleanUp !in steps[..q]
    ensures q <= r <= |steps|
    ensures var log, i, m := multiset(Run(pool, steps).log), |SentBy(steps[..q])|, steps[q];
            && log[Destroyed(i)] == (if m.destructor then 1 else 0)
            && log[Called(l, m.address, i)] == Subscribed(steps[..r], ADDRESS_ALL, l) + Subscribed(steps[..r], m.address, l)
  {
    hide Run, Net, Subscribed, Requested;
    var i := |SentBy(steps[..q])|;
    Accepted(pool, steps);
    SentAt(steps, q);
    DeliveredTo(pool, steps, i, l);
    RequestedGrows(steps, q);
    var shown := Run(pool, steps).shown[i];
    r := MomentOf(steps, q, shown);
    SubscribedIsNet(steps[..r], ADDRESS_ALL, l);
    SubscribedIsNet(steps[..r], steps[q].address, l);
  }

  lemma SentAt(steps: seq<Step>, q: nat)
    requires q < |steps| && steps[q].Send? && CleanUp !in steps[..q]
    ensures var i := |SentBy(steps[..q])|;
            i < |SentBy(steps)| && SentBy(steps)[i] == Sent(steps[q].address, steps[q].destructor, |Requested(steps[..q])|)
  {
    hide Requested;
    assert steps[..q + 1][..q] == steps[..q];
    RequestedGrows(steps, q + 1);
  }

  /** The step asks about the listener, at the address or at the address of all. */
  predicate Concerns(step: Step, address: nat, l: Listener) {
    step.Request? && step.op.l == l && (step.op.address == address || step.op.address == ADDRESS_ALL)
  }

  /** Steps that do not concern the listener change no subscription of it. */
  lemma {:induction false} Unconcerned(steps: seq<Step>, p: nat, r: nat, address: nat, l: Listener, a: nat)
    requires p <= r <= |steps| && (a == address || a == ADDRESS_ALL)
    requires forall k :: p <= k < r ==> !Concerns(steps[k], address, l)
    ensures Subscribed(steps[..r], a, l) == Subscribed(steps[..p], a, l)
    decreases r
  {
    if p < r {
      assert steps[..r][..r - 1] == steps[..r - 1];
      Unconcerned(steps, p, r - 1, address, l, a);
    }
  }

  /** One request before clean_up. */
  lemma OneRequest(steps: seq<Step>, p: nat, a: nat, l: Listener)
    requires p < |steps| && steps[p].Request? && CleanUp !in steps[..p] && a != ADDRESS_CLOSE
    ensures var n, op := Subscribed(steps[..p], a, l), steps[p].op;
            Subscribed(steps[..p + 1], a, l) ==
            if op == Add(a, l) then n + 1 else if op == Remove(a, l) && n > 0 then n - 1 else n
  {
    assert steps[..p + 1][..p] == steps[..p];
  }

  /**
    A listener that subscribed once, to the address or to all, before the send, and asked for nothing else
    about them, is called exactly once at exit, if the message was not sent to all addresses.
   */
  lemma ExactlyOnce(pool: nat, steps: seq<Step>, p: nat, q: nat, l: Listener)
    requires Run(pool, steps).phase.Exited? && p < q < |steps| && steps[q].Send? && CleanUp !in steps[..q]
    requires steps[p].Request? && steps[p].op.Add? && steps[p].op.address != ADDRESS_CLOSE && steps[q].address != ADDRESS_ALL
    requires forall k :: 0 <= k < |steps| ==> (Concerns(steps[k], steps[q].address, l) <==> k == p)
    ensures multiset(Run(pool, steps).log)[Called(l, steps[q].address, |SentBy(steps[..q])|)] == 1
  {
    hide Run, Subscribed, SentBy;
    var address := steps[q].address;
    var r := DeliveredAt(pool, steps, q, l);
    assert CleanUp !in steps[..p] by {
      assert forall k :: 0 <= k < p ==> steps[..p][k] == steps[..q][k];
    }
    assert Concerns(steps[p], address, l);
    AfterFirst(steps, p, r, address, l, ADDRESS_ALL);
    AfterFirst(steps, p, r, address, l, address);
  }

  /** After the first request that concerns the listener, and before the next. */
  lemma AfterFirst(steps: seq<Step>, p: nat, r: nat, address: nat, l: Listener, a: nat)
    requires p < r <= |steps| && (a == address || a == ADDRESS_ALL) && CleanUp !in steps[..p]
    requires steps[p].Request? && steps[p].op.Add? && steps[p].op.address != ADDRESS_CLOSE && Concerns(steps[p], address, l)
    requires forall k :: 0 <= k < r && k != p ==> !Concerns(steps[k], address, l)
    ensures Subscribed(steps[..r], a, l) == if steps[p].op.address == a then 1 else 0
  {
    if a == ADDRESS_CLOSE {
      assert Subscribed(steps[..r], a, l) == 0;
    } else {
      Unconcerned(steps, 0, p, address, l, a);
      assert steps[..0] == [];
      OneRequest(steps, p, a, l);
      Unconcerned(steps, p + 1, r, address, l, a);
    }
  }

  /** A listener that subscribed once and unsubscribed again before the send is not called for it. */
  lemma NotOnceRemoved(pool: nat, steps: seq<Step>, p: nat, p': nat, q: nat, l: Listener)
    requires Run(pool, steps).phase.Exited? && p < p' < q < |steps| && steps[q].Send? && CleanUp !in steps[..q]
    requires steps[p].Request? && steps[p].op.Add? && steps[p].op.address != ADDRESS_CLOSE
    requires steps[p'] == Request(Remove(steps[p].op.address, l))
    requires forall k :: 0 <= k < |steps| ==> (Concerns(steps[k], steps[q].address, l) <==> k == p || k == p')
    ensures multiset(Run(pool, steps).log)[Called(l, steps[q].address, |SentBy(steps[..q])|)] == 0
  {
    hide Run, Subscribed, SentBy;
    var address := steps[q].address;
    var r := DeliveredAt(pool, steps, q, l);
    assert CleanUp !in steps[..p] && CleanUp !in steps[..p'] by {
      assert forall k :: 0 <= k < p ==> steps[..p][k] == steps[..q][k];
      assert forall k :: 0 <= k < p' ==> steps[..p'][k] == steps[..q][k];
    }
    assert Concerns(steps[p], address, l) && Concerns(steps[p'], address, l);
    AfterSecond(steps, p, p', r, address, l, ADDRESS_ALL);
    AfterSecond(steps, p, p', r, address, l, address);
  }

  lemma AfterSecond(steps: seq<Step>, p: nat, p': nat, r: nat, address: nat, l: Listener, a: nat)
    requires p < p' < r <= |steps| && (a == address || a == ADDRESS_ALL) && CleanUp !in steps[..p] && CleanUp !in steps[..p']
    requires steps[p].Request? && steps[p].op.Add? && steps[p].op.address != ADDRESS_CLOSE && Concerns(steps[p], address, l)
    requires steps[p'] == Request(Remove(steps[p].op.address, l))
    requires forall k :: 0 <= k < r && k != p && k != p' ==> !Concerns(steps[k], address, l)
    ensures Subscribed(steps[..r], a, l) == 0
  {
    if a != ADDRESS_CLOSE {
      AfterFirst(steps, p, p', address, l, a);
      OneRequest(steps, p', a, l);
      Unconcerned(steps, p' + 1, r, address, l, a);
    }
  }

  // ---------- shutting down ----------

  /** The step the dispatcher takes next. */
  function NextStep(s: Bus): Step {
    match s.phase
    case Waiting => Wake
    case Applying => ApplyOne
    case Starting => Begin
    case Calling(_) => Call
    case Freeing => Recycle
    case _ => Check
  }

  function Stage(s: Bus): nat {
    match s.phase
    case Waiting => 5
    case Applying => 4
    case Starting => 3
    case Calling(_) => 3
    case Freeing => 2
    case _ => 1
  }

  /** Work left within a stage. */
  function Left(s: Bus): int {
    if s.phase.Applying? then |s.pendingSubs|
    else if s.phase.Starting? then 2 * (|s.pending| - s.cursor) + 1
    else if s.phase.Calling? then 2 * (|s.pending| - s.cursor)
    else 0
  }

  function CallsLeft(s: Bus): nat {
    if s.phase.Calling? then |s.phase.rest| else 0
  }

  /** Once clean_up has cleared the running flag, clients change nothing any more. */
  lemma ClientsIdle(s: Bus, step: Step)
    requires !s.running && !DispatcherStep(step) && Enabled(s, step)
    ensures Do(s, step) == s
  {
  }

  /** The exit is nearer: fewer rounds, a later stage, less work in it, or fewer calls to make. */
  ghost predicate IsNearer(s: Bus, s': Bus) {
    || s'.phase.Exited? || s'.drains < s.drains
    || (s'.drains == s.drains && (|| Stage(s') < Stage(s)
                                  || (Stage(s') == Stage(s) && 0 <= Left(s') < Left(s))
                                  || (Stage(s') == Stage(s) && Left(s') == Left(s) && CallsLeft(s') < CallsLeft(s))))
  }

  lemma StepNearer(s: Bus)
    requires QueueOk(s) && !s.running && !s.phase.Exited? && Enabled(s, NextStep(s))
    ensures IsNearer(s, Do(s, NextStep(s))) && !Do(s, NextStep(s)).running
  {
    hide Apply, Recipients, Pooled, Heaped, Leftover, Carries, Destruction;
  }

  /** The dispatcher is never stuck during shutdown, and each of its steps brings the exit nearer. */
  lemma Nearer(s: Bus)
    requires Inv(s) && !s.running && !s.phase.Exited?
    ensures Enabled(s, NextStep(s)) && Inv(Do(s, NextStep(s))) && !Do(s, NextStep(s)).running
    ensures IsNearer(s, Do(s, NextStep(s)))
  {
    hide QueueOk, OpsOk, OrderOk, ClearedOk, ShutOk, PoolOk, LogOk, Enabled, Do, IsNearer;
    StepEnabled(s);
    StepKeeps(s, NextStep(s));
    StepNearer(s);
  }

  lemma StepEnabled(s: Bus)
    requires QueueOk(s) && !s.running && !s.phase.Exited?
    ensures Enabled(s, NextStep(s))
  {
  }

  /** The one step the dispatcher can take, if any. */
  lemma OnlyNext(s: Bus, step: Step)
    requires DispatcherStep(step) && Enabled(s, step)
    ensures !s.phase.Exited? && step == NextStep(s)
  {
  }

  /** How many steps of its own the dispatcher is from the exit, once clean_up has begun. */
  ghost function Rounds(s: Bus): (n: nat)
    requires Inv(s) && !s.running
    ensures n == 0 <==> s.phase.Exited?
    decreases !s.phase.Exited?, s.drains, Stage(s), Left(s), CallsLeft(s)
  {
    if s.phase.Exited? then 0
    else
      Nearer(s);
      1 + Rounds(Do(s, NextStep(s)))
  }

  /** What one step makes of a state, nothing if it is not enabled. */
  function After(s: Bus, step: Step): Bus {
    if Enabled(s, step) then Do(s, step) else s
  }

  function Go(s: Bus, more: seq<Step>): Bus
    decreases |more|
  {
    if more == [] then s else Go(After(s, more[0]), more[1..])
  }

  /** The steps among them that the dispatcher takes. */
  function Taken(s: Bus, more: seq<Step>): nat
    decreases |more|
  {
    if more == [] then 0
    else (if DispatcherStep(more[0]) && Enabled(s, more[0]) then 1 else 0) + Taken(After(s, more[0]), more[1..])
  }

  lemma OneRound(s: Bus, step: Step)
    requires Inv(s) && !s.running
    ensures var s' := After(s, step);
            && Inv(s') && !s'.running
            && Rounds(s) == (if DispatcherStep(step) && Enabled(s, step) then 1 else 0) + Rounds(s')
  {
    hide Inv, Do, Enabled;
    if Enabled(s, step) {
      if DispatcherStep(step) {
        OnlyNext(s, step);
        Nearer(s);
      } else {
        ClientsIdle(s, step);
      }
    }
  }

  /**
    After clean_up has begun, in every interleaving with whatever clients do: each step the dispatcher
    takes brings it one nearer the exit and nothing else changes that distance; it is at the exit exactly
    when it has taken that many steps, and until then it can take the next one.
   */
  lemma {:induction false} Drain(s: Bus, more: seq<Step>)
    requires Inv(s) && !s.running
    ensures var r := Go(s, more);
            && Inv(r) && !r.running && Taken(s, more) + Rounds(r) == Rounds(s)
            && (r.phase.Exited? <==> Taken(s, more) == Rounds(s))
            && (!r.phase.Exited? ==> DispatcherStep(NextStep(r)) && Enabled(r, NextStep(r)))
    decreases |more|
  {
    hide Inv, Enabled, Do, After, Rounds;
    if more == [] {
      if !s.phase.Exited? {
        Nearer(s);
      }
    } else {
      OneRound(s, more[0]);
      Drain(After(s, more[0]), more[1..]);
    }
  }

  lemma {:induction false} RunGoes(pool: nat, steps: seq<Step>, more: seq<Step>)
    ensures Run(pool, steps + more) == Go(Run(pool, steps), more)
    decreases |more|
  {
    hide Do, Enabled;
    if more == [] {
      assert steps + more == steps;
    } else {
      var first := steps + [more[0]];
      assert first[..|steps|] == steps;
      assert steps + more == first + more[1..];
      RunGoes(pool, first, more[1..]);
    }
  }

  /** The same in every run of the bus from its start. */
  lemma ShutdownEnds(pool: nat, steps: seq<Step>, more: seq<Step>)
    requires !Run(pool, steps).running
    ensures Inv(Run(pool, steps))
    ensures Run(pool, steps + more).phase.Exited? <==> Taken(Run(pool, steps), more) == Rounds(Run(pool, steps))
    ensures Taken(Run(pool, steps), more) <= Rounds(Run(pool, steps))
  {
    hide Inv, Run, Go, Taken, Rounds;
    RunInv(pool, steps);
    RunGoes(pool, steps, more);
    Drain(Run(pool, steps), more);
  }
}
