/**
  Lazy joining of managed threads, source/thread_shared.c with the managed parts
  of source/posix/thread.c, as a transition system: launching, finishing, the
  join loops of finishing threads and of join-all callers, and outside counting.
 */
module ManagedThreads {

  /** Who holds a finished thread for joining: the shared list, a finishing thread or a join-all caller. */
  datatype Place = Pending | ByThread(t: nat) | ByCaller(c: nat)

  /** A local list of threads to join; waited means the join on its head has returned. */
  datatype JoinList = JoinList(todo: seq<nat>, waited: bool)

  const NOTHING: JoinList := JoinList([], false)

  /** Launching up to the creation of the thread, Working in user code, Joining after its own release, Done when it has returned. */
  datatype Phase = Launching | Failed | Working | Joining | Done

  datatype Thread = Thread(phase: Phase, joins: JoinList, order: nat, reaped: bool, freed: bool, holder: Place)

  datatype CallerPhase = Waiting | Clearing(done: bool) | Returned

  /** A call of aws_thread_join_all_managed; cleared counts the threads known when it saw a zero count. */
  datatype Caller = Caller(phase: CallerPhase, joins: JoinList, timed: bool, ok: bool, cleared: nat)

  datatype State = State(threads: seq<Thread>, callers: seq<Caller>, pending: seq<nat>, count: int, external: nat,
                         clock: nat, log: seq<(Place, nat)>)

  function Init(): State {
    State([], [], [], 0, 0, 0, [])
  }

  datatype Step =
    | Launch
    | Create(t: nat, created: bool)
    | Finish(t: nat)
    | Join(joiner: Place)
    | Free(joiner: Place)
    | Leave(t: nat)
    | Increment
    | Decrement
    | Begin(timed: bool)
    | Collect(c: nat, late: bool)
    | Conclude(c: nat)

  predicate Exists(s: State, p: Place) {
    match p
    case Pending => true
    case ByThread(t) => t < |s.threads|
    case ByCaller(c) => c < |s.callers|
  }

  /** The join list of a joiner; the shared list as one of which nothing was joined. */
  function JoinsAt(s: State, p: Place): JoinList
    requires Exists(s, p)
  {
    match p
    case Pending => JoinList(s.pending, false)
    case ByThread(t) => s.threads[t].joins
    case ByCaller(c) => s.callers[c].joins
  }

  predicate Released(th: Thread) {
    th.phase.Joining? || th.phase.Done?
  }

  /** What each step needs: in particular a join returns only when its thread has. */
  predicate Enabled(s: State, step: Step) {
    match step
    case Create(t, _) => t < |s.threads| && s.threads[t].phase.Launching?
    case Finish(t) => t < |s.threads| && s.threads[t].phase.Working?
    case Join(p) =>
      && !p.Pending? && Exists(s, p) && JoinsAt(s, p).todo != [] && !JoinsAt(s, p).waited
      && JoinsAt(s, p).todo[0] < |s.threads| && s.threads[JoinsAt(s, p).todo[0]].phase.Done?
    case Free(p) =>
      !p.Pending? && Exists(s, p) && JoinsAt(s, p).todo != [] && JoinsAt(s, p).waited && JoinsAt(s, p).todo[0] < |s.threads|
    case Leave(t) => t < |s.threads| && s.threads[t].phase.Joining? && s.threads[t].joins == NOTHING
    case Decrement => s.external > 0
    case Collect(c, late) =>
      && c < |s.callers| && s.callers[c].phase.Waiting?
      && (s.count <= 1 || s.callers[c].timed) && (late ==> s.callers[c].timed)
    case Conclude(c) => c < |s.callers| && s.callers[c].phase.Clearing? && s.callers[c].joins == NOTHING
    case _ => true
  }

  function SetThread(s: State, t: nat, th: Thread): State
    requires t < |s.threads|
  {
    s.(threads := s.threads[t := th])
  }

  function SetJoins(s: State, p: Place, joins: JoinList): State
    requires Exists(s, p)
  {
    match p
    case Pending => s
    case ByThread(t) => s.(threads := s.threads[t := s.threads[t].(joins := joins)])
    case ByCaller(c) => s.(callers := s.callers[c := s.callers[c].(joins := joins)])
  }

  /** The threads of a list now held elsewhere. */
  function Hand(threads: seq<Thread>, list: seq<nat>, p: Place): seq<Thread> {
    seq(|threads|, i requires 0 <= i < |threads| => if i in list then threads[i].(holder := p) else threads[i])
  }

  /** aws_thread_launch up to the creation: the count goes up first. */
  function DoLaunch(s: State): State {
    s.(threads := s.threads + [Thread(Launching, NOTHING, 0, false, false, Pending)], count := s.count + 1)
  }

  /** pthread_create; a failure takes the count back, and nobody frees the wrapper. */
  function DoCreate(s: State, t: nat, created: bool): State
    requires Enabled(s, Create(t, created))
  {
    var th := s.threads[t];
    if created then SetThread(s, t, th.(phase := Working))
    else SetThread(s, t, th.(phase := Failed)).(count := s.count - 1)
  }

  /** aws_thread_pending_join_add: take what is pending, leave oneself. */
  function DoFinish(s: State, t: nat): State
    requires Enabled(s, Finish(t))
  {
    var handed := Hand(s.threads, s.pending, ByThread(t));
    s.(threads := handed[t := handed[t].(phase := Joining, joins := JoinList(s.pending, false), order := s.clock, holder := Pending)],
       pending := [t], clock := s.clock + 1)
  }

  /** The join of the list's head returns. */
  function DoJoin(s: State, p: Place): State
    requires Enabled(s, Join(p))
  {
    var joins := JoinsAt(s, p);
    var t := joins.todo[0];
    SetJoins(SetThread(s, t, s.threads[t].(reaped := true)), p, joins.(waited := true)).(log := s.log + [(p, t)])
  }

  /** The head's wrapper is freed and the count goes down. */
  function DoFree(s: State, p: Place): State
    requires Enabled(s, Free(p))
  {
    var joins := JoinsAt(s, p);
    var t := joins.todo[0];
    SetJoins(SetThread(s, t, s.threads[t].(freed := true)), p, JoinList(joins.todo[1..], false)).(count := s.count - 1)
  }

  /** One critical section of aws_thread_join_all_managed. */
  function DoCollect(s: State, c: nat, late: bool): State
    requires Enabled(s, Collect(c, late))
  {
    var caller := s.callers[c];
    s.(callers := s.callers[c := caller.(phase := Clearing(s.count == 0 || late), joins := JoinList(s.pending, false),
                                         ok := caller.ok && !late, cleared := if s.count == 0 then |s.threads| else 0)],
       threads := Hand(s.threads, s.pending, ByCaller(c)), pending := [])
  }

  function Do(s: State, step: Step): State
    requires Enabled(s, step)
  {
    match step
    case Launch => DoLaunch(s)
    case Create(t, created) => DoCreate(s, t, created)
    case Finish(t) => DoFinish(s, t)
    case Join(p) => DoJoin(s, p)
    case Free(p) => DoFree(s, p)
    case Leave(t) => SetThread(s, t, s.threads[t].(phase := Done))
    case Increment => s.(count := s.count + 1, external := s.external + 1)
    case Decrement => s.(count := s.count - 1, external := s.external - 1)
    case Begin(timed) => s.(callers := s.callers + [Caller(Waiting, NOTHING, timed, true, 0)])
    case Collect(c, late) => DoCollect(s, c, late)
    case Conclude(c) =>
      s.(callers := s.callers[c := s.callers[c].(phase := if s.callers[c].phase.done then Returned else Waiting)])
  }

  // ---------- the invariant ----------

  /** Joined and freed, or never created. */
  predicate Gone(th: Thread) {
    th.freed || th.phase.Failed?
  }

  /** Launched threads that are not yet joined and freed. */
  function Unfreed(threads: seq<Thread>): nat {
    if threads == [] then 0
    else Unfreed(threads[..|threads| - 1]) + (if Gone(threads[|threads| - 1]) then 0 else 1)
  }

  /** Life of a thread: nothing to join before its own release or after its return, joined only when done, freed only when joined. */
  predicate LifeOk(th: Thread) {
    && (!th.phase.Joining? ==> th.joins == NOTHING)
    && (th.reaped ==> th.phase.Done?)
    && (th.freed ==> th.reaped)
  }

  /** No list is longer than one. */
  predicate Short(joins: JoinList) {
    |joins.todo| <= 1 && (joins.waited ==> joins.todo != [])
  }

  ghost predicate ListsOk(s: State) {
    && (forall t :: 0 <= t < |s.threads| ==> LifeOk(s.threads[t]) && Short(s.threads[t].joins))
    && (forall c :: 0 <= c < |s.callers| ==> Short(s.callers[c].joins) && (!s.callers[c].phase.Clearing? ==> s.callers[c].joins == NOTHING))
    && |s.pending| <= 1
  }

  predicate Listed(s: State, p: Place, t: nat) {
    Exists(s, p) && t in JoinsAt(s, p).todo
  }

  /** A thread on a list was released, is not freed, is held just there, and is reaped exactly if its joiner has waited. */
  predicate HeldAt(s: State, p: Place, t: nat)
    requires Exists(s, p)
  {
    && t < |s.threads| && Released(s.threads[t]) && !s.threads[t].freed && s.threads[t].holder == p
    && s.threads[t].reaped == JoinsAt(s, p).waited
  }

  /** Every released thread that is not freed is on one list, that of its holder. */
  ghost predicate HeldOk(s: State) {
    && (forall p, t :: Listed(s, p, t) ==> HeldAt(s, p, t))
    && (forall t :: 0 <= t < |s.threads| && Released(s.threads[t]) && !s.threads[t].freed ==> Listed(s, s.threads[t].holder, t))
  }

  /** Threads were released one after the other, and wait only for earlier ones. */
  ghost predicate OrderOk(s: State) {
    && (forall t :: 0 <= t < |s.threads| && Released(s.threads[t]) ==> s.threads[t].order < s.clock)
    && (forall t, u :: Listed(s, ByThread(t), u) ==> Before(s.threads, u, t))
  }

  predicate Before(threads: seq<Thread>, u: nat, t: nat) {
    u < |threads| && t < |threads| && threads[u].order < threads[t].order
  }

  ghost predicate CountOk(s: State) {
    s.count == Unfreed(s.threads) + s.external
  }

  /** How often a thread was joined. */
  function Joined(log: seq<(Place, nat)>, t: nat): nat {
    if log == [] then 0 else Joined(log[..|log| - 1], t) + (if log[|log| - 1].1 == t then 1 else 0)
  }

  ghost predicate LogOk(s: State) {
    && (forall t :: 0 <= t < |s.threads| ==> Joined(s.log, t) == if s.threads[t].reaped then 1 else 0)
    && (forall i :: 0 <= i < |s.log| ==> s.log[i].1 < |s.threads| && s.log[i].0 != ByThread(s.log[i].1) && s.log[i].0 != Pending)
  }

  /** A caller that is to return success has seen a moment with every thread joined and freed. */
  ghost predicate ClearedOk(s: State) {
    forall c :: 0 <= c < |s.callers| ==> CallerOk(s.threads, s.callers[c])
  }

  ghost predicate CallerOk(threads: seq<Thread>, caller: Caller) {
    && (caller.phase.Waiting? ==> caller.ok)
    && (caller.phase.Clearing? && !caller.phase.done ==> caller.ok)
    && (caller.ok && (caller.phase.Returned? || (caller.phase.Clearing? && caller.phase.done)) ==>
          caller.cleared <= |threads| && forall t :: 0 <= t < caller.cleared ==> Gone(threads[t]))
  }

  ghost predicate Inv(s: State) {
    ListsOk(s) && HeldOk(s) && OrderOk(s) && CountOk(s) && LogOk(s) && ClearedOk(s)
  }

  // ---------- what the steps change ----------

  /** Both states have equally many threads and callers. */
  predicate SameSize(s: State, s': State) {
    |s'.threads| == |s.threads| && |s'.callers| == |s.callers|
  }

  lemma JoinEffect(s: State, p: Place)
    requires Enabled(s, Join(p))
    ensures var s', t := DoJoin(s, p), JoinsAt(s, p).todo[0];
            && SameSize(s, s')
            && (forall i: nat :: i < |s.threads| ==>
                  s'.threads[i] == s.threads[i].(reaped := s.threads[i].reaped || i == t,
                                                 joins := if p == ByThread(i) then s.threads[i].joins.(waited := true) else s.threads[i].joins))
            && (forall q, u :: Listed(s', q, u) <==> Listed(s, q, u))
            && (forall q :: Exists(s, q) ==> JoinsAt(s', q).waited == (JoinsAt(s, q).waited || q == p))
  {
  }

  lemma FreeEffect(s: State, p: Place)
    requires Enabled(s, Free(p)) && |JoinsAt(s, p).todo| == 1
    ensures var s', t := DoFree(s, p), JoinsAt(s, p).todo[0];
            && SameSize(s, s')
            && (forall i: nat :: i < |s.threads| ==>
                  s'.threads[i] == s.threads[i].(freed := s.threads[i].freed || i == t,
                                                 joins := if p == ByThread(i) then NOTHING else s.threads[i].joins))
            && (forall q, u :: Listed(s', q, u) <==> Listed(s, q, u) && q != p)
            && (forall q :: Exists(s, q) && q != p ==> JoinsAt(s', q).waited == JoinsAt(s, q).waited)
            && JoinsAt(s', p) == NOTHING
  {
    assert JoinsAt(s, p).todo[1..] == [];
  }

  lemma FinishEffect(s: State, t: nat)
    requires Enabled(s, Finish(t)) && t !in s.pending && s.threads[t].joins == NOTHING
    ensures var s' := DoFinish(s, t);
            && SameSize(s, s')
            && s'.threads[t] == s.threads[t].(phase := Joining, joins := JoinList(s.pending, false), order := s.clock, holder := Pending)
            && (forall i: nat :: i < |s.threads| && i != t ==>
                  s'.threads[i] == if i in s.pending then s.threads[i].(holder := ByThread(t)) else s.threads[i])
            && (forall q, u :: Listed(s', q, u) <==>
                  (if q == Pending then u == t else if q == ByThread(t) then u in s.pending else Listed(s, q, u)))
            && (forall q :: Exists(s, q) ==> JoinsAt(s', q).waited == JoinsAt(s, q).waited)
  {
  }

  lemma CollectEffect(s: State, c: nat, late: bool)
    requires Enabled(s, Collect(c, late)) && s.callers[c].joins == NOTHING
    ensures var s' := DoCollect(s, c, late);
            && SameSize(s, s')
            && (forall i: nat :: i < |s.threads| ==>
                  s'.threads[i] == if i in s.pending then s.threads[i].(holder := ByCaller(c)) else s.threads[i])
            && (forall q, u :: Listed(s', q, u) <==>
                  (if q == Pending then false else if q == ByCaller(c) then u in s.pending else Listed(s, q, u)))
            && (forall q :: Exists(s, q) ==> JoinsAt(s', q).waited == JoinsAt(s, q).waited)
  {
  }

  lemma ShortAt(s: State, p: Place)
    requires ListsOk(s) && Exists(s, p)
    ensures Short(JoinsAt(s, p))
  {
  }

  /** The one thread of a list is on no other. */
  lemma HeadIs(s: State, p: Place)
    requires ListsOk(s) && HeldOk(s) && Exists(s, p) && JoinsAt(s, p).todo != []
    ensures var t := JoinsAt(s, p).todo[0];
            && JoinsAt(s, p).todo == [t] && HeldAt(s, p, t)
            && (forall q :: Listed(s, q, t) <==> q == p) && (forall u :: Listed(s, p, u) <==> u == t)
  {
    ShortAt(s, p);
    var t := JoinsAt(s, p).todo[0];
    assert Listed(s, p, t);
    hide ListsOk;
  }

  // ---------- every step keeps the invariant ----------

  lemma JoinHeld(s: State, p: Place)
    requires ListsOk(s) && HeldOk(s) && Enabled(s, Join(p))
    ensures HeldOk(DoJoin(s, p))
  {
    JoinEffect(s, p);
    HeadIs(s, p);
    hide DoJoin, ListsOk, JoinsAt, Listed;
  }

  lemma FreeHeld(s: State, p: Place)
    requires ListsOk(s) && HeldOk(s) && Enabled(s, Free(p))
    ensures HeldOk(DoFree(s, p))
  {
    HeadIs(s, p);
    FreeEffect(s, p);
    hide DoFree, ListsOk, JoinsAt, Listed;
  }

  lemma PendingIs(s: State)
    ensures forall t :: Listed(s, Pending, t) <==> t in s.pending
    ensures !JoinsAt(s, Pending).waited
  {
  }

  lemma FinishHeld(s: State, t: nat)
    requires ListsOk(s) && HeldOk(s) && Enabled(s, Finish(t))
    ensures t !in s.pending && HeldOk(DoFinish(s, t))
  {
    PendingIs(s);
    PendingIs(DoFinish(s, t));
    assert t !in s.pending;
    assert s.threads[t].joins == NOTHING;
    assert JoinsAt(s, ByThread(t)) == NOTHING;
    FinishEffect(s, t);
    hide DoFinish, ListsOk, JoinsAt, Listed;
  }

  lemma CollectHeld(s: State, c: nat, late: bool)
    requires ListsOk(s) && HeldOk(s) && Enabled(s, Collect(c, late))
    ensures HeldOk(DoCollect(s, c, late))
  {
    PendingIs(s);
    assert s.callers[c].joins == NOTHING;
    assert JoinsAt(s, ByCaller(c)) == NOTHING;
    CollectEffect(s, c, late);
    hide DoCollect, ListsOk, JoinsAt, Listed;
  }

  /** A step that moves no thread between lists and joins none. */
  lemma QuietHeld(s: State, s': State)
    requires HeldOk(s) && |s.threads| <= |s'.threads|
    requires forall q :: Exists(s, q) ==> Exists(s', q) && JoinsAt(s', q).waited == JoinsAt(s, q).waited
    requires forall q, u :: Listed(s', q, u) <==> Listed(s, q, u)
    requires forall i :: 0 <= i < |s.threads| ==>
               && Released(s'.threads[i]) == Released(s.threads[i]) && s'.threads[i].reaped == s.threads[i].reaped
               && (Released(s.threads[i]) ==> s'.threads[i].freed == s.threads[i].freed && s'.threads[i].holder == s.threads[i].holder)
    requires forall i :: |s.threads| <= i < |s'.threads| ==> !Released(s'.threads[i])
    ensures HeldOk(s')
  {
    assert forall q, u :: Listed(s', q, u) ==> Exists(s, q);
    hide JoinsAt, Listed;
  }

  lemma HeldKept(s: State, step: Step)
    requires ListsOk(s) && HeldOk(s) && Enabled(s, step)
    ensures HeldOk(Do(s, step))
  {
    hide ListsOk, HeldOk, DoJoin, DoFree, DoFinish, DoCollect;
    match step
    case Join(p) => JoinHeld(s, p);
    case Free(p) => FreeHeld(s, p);
    case Finish(t) => FinishHeld(s, t);
    case Collect(c, late) => CollectHeld(s, c, late);
    case _ => QuietHeld(s, Do(s, step));
  }

  lemma FinishLists(s: State, t: nat)
    requires ListsOk(s) && HeldOk(s) && Enabled(s, Finish(t))
    ensures ListsOk(DoFinish(s, t))
  {
    FinishHeld(s, t);
    FinishEffect(s, t);
    hide HeldOk, Listed;
    assert DoFinish(s, t).callers == s.callers && DoFinish(s, t).pending == [t];
    hide DoFinish;
  }

  lemma JoinLists(s: State, p: Place)
    requires ListsOk(s) && HeldOk(s) && Enabled(s, Join(p))
    ensures ListsOk(DoJoin(s, p))
  {
    HeadIs(s, p);
    JoinEffect(s, p);
    hide HeldOk, Listed;
  }

  lemma FreeLists(s: State, p: Place)
    requires ListsOk(s) && HeldOk(s) && Enabled(s, Free(p))
    ensures ListsOk(DoFree(s, p))
  {
    HeadIs(s, p);
    FreeEffect(s, p);
    hide HeldOk, Listed;
  }

  lemma ListsKept(s: State, step: Step)
    requires ListsOk(s) && HeldOk(s) && Enabled(s, step)
    ensures ListsOk(Do(s, step))
  {
    hide HeldOk, Listed;
    match step
    case Join(p) => JoinLists(s, p);
    case Free(p) => FreeLists(s, p);
    case Finish(t) => FinishLists(s, t);
    case _ =>
  }

  /** A step that keeps every thread's place in the order and adds to no list. */
  lemma QuietOrder(s: State, s': State)
    requires OrderOk(s) && s'.clock == s.clock && |s'.threads| == |s.threads|
    requires forall i :: 0 <= i < |s.threads| ==>
               s'.threads[i].order == s.threads[i].order && Released(s'.threads[i]) == Released(s.threads[i])
    requires forall t, u :: Listed(s', ByThread(t), u) ==> Listed(s, ByThread(t), u)
    ensures OrderOk(s')
  {
    hide Listed;
  }

  /** A thread that is still working is on no list, and what is pending was released before. */
  lemma FinishFacts(s: State, t: nat)
    requires ListsOk(s) && HeldOk(s) && OrderOk(s) && Enabled(s, Finish(t))
    ensures t !in s.pending && s.threads[t].joins == NOTHING && DoFinish(s, t).clock == s.clock + 1
    ensures forall u :: u in s.pending ==> u < |s.threads| && Released(s.threads[u]) && s.threads[u].order < s.clock
    ensures forall q, u :: Listed(s, q, u) ==> u != t
  {
    PendingIs(s);
    FinishHeld(s, t);
  }

  lemma FinishOrder(s: State, t: nat)
    requires ListsOk(s) && HeldOk(s) && OrderOk(s) && Enabled(s, Finish(t))
    ensures OrderOk(DoFinish(s, t))
  {
    hide DoFinish, Listed, ListsOk, HeldOk;
    FinishFacts(s, t);
    FinishEffect(s, t);
  }

  lemma OrderKept(s: State, step: Step)
    requires ListsOk(s) && HeldOk(s) && OrderOk(s) && Enabled(s, step)
    ensures OrderOk(Do(s, step))
  {
    hide OrderOk;
    match step
    case Join(p) =>
      JoinEffect(s, p);
      hide ListsOk, HeldOk, Listed;
      QuietOrder(s, DoJoin(s, p));
    case Free(p) =>
      HeadIs(s, p);
      FreeEffect(s, p);
      hide ListsOk, HeldOk, Listed;
      QuietOrder(s, DoFree(s, p));
    case Finish(t) => FinishOrder(s, t);
    case Collect(c, late) =>
      CollectEffect(s, c, late);
      hide ListsOk, HeldOk, Listed;
      QuietOrder(s, DoCollect(s, c, late));
    case Launch => LaunchOrder(s);
    case _ =>
      hide ListsOk, HeldOk;
      QuietOrder(s, Do(s, step));
  }

  lemma LaunchOrder(s: State)
    requires OrderOk(s)
    ensures OrderOk(DoLaunch(s))
  {
    assert forall t, u :: Listed(DoLaunch(s), ByThread(t), u) ==> Listed(s, ByThread(t), u);
    hide Listed;
  }

  lemma {:induction false} UnfreedSet(threads: seq<Thread>, t: nat, th: Thread)
    requires t < |threads|
    ensures Unfreed(threads[t := th]) ==
            Unfreed(threads) + (if Gone(th) then 0 else 1) - (if Gone(threads[t]) then 0 else 1)
  {
    var n := |threads| - 1;
    if t < n {
      UnfreedSet(threads[..n], t, th);
      assert threads[t := th][..n] == threads[..n][t := th];
    } else {
      assert threads[t := th][..n] == threads[..n];
    }
  }

  lemma {:induction false} UnfreedSame(a: seq<Thread>, b: seq<Thread>)
    requires |a| == |b| && forall i :: 0 <= i < |a| ==> Gone(a[i]) == Gone(b[i])
    ensures Unfreed(a) == Unfreed(b)
  {
    if a != [] {
      UnfreedSame(a[..|a| - 1], b[..|b| - 1]);
    }
  }

  lemma {:induction false} NoneUnfreed(threads: seq<Thread>)
    requires Unfreed(threads) == 0
    ensures forall t :: 0 <= t < |threads| ==> Gone(threads[t])
  {
    if threads != [] {
      NoneUnfreed(threads[..|threads| - 1]);
    }
  }

  lemma {:induction false} SomeUnfreed(threads: seq<Thread>, t: nat)
    requires t < |threads| && !Gone(threads[t])
    ensures Unfreed(threads) > 0
  {
    if t < |threads| - 1 {
      SomeUnfreed(threads[..|threads| - 1], t);
    }
  }

  /** A step that frees nobody and counts nobody. */
  lemma QuietCount(s: State, s': State)
    requires CountOk(s) && s'.count - s'.external == s.count - s.external && |s'.threads| == |s.threads|
    requires forall i :: 0 <= i < |s.threads| ==> Gone(s'.threads[i]) == Gone(s.threads[i])
    ensures CountOk(s')
  {
    UnfreedSame(s.threads, s'.threads);
  }

  lemma FreeCount(s: State, p: Place)
    requires ListsOk(s) && HeldOk(s) && CountOk(s) && Enabled(s, Free(p))
    ensures CountOk(DoFree(s, p))
  {
    var s', t := DoFree(s, p), JoinsAt(s, p).todo[0];
    HeadIs(s, p);
    FreeEffect(s, p);
    assert s'.count == s.count - 1 && s'.external == s.external;
    hide DoFree, ListsOk, HeldOk, Listed, JoinsAt;
    UnfreedSet(s.threads, t, s'.threads[t]);
    UnfreedSame(s'.threads, s.threads[t := s'.threads[t]]);
  }

  lemma LaunchCount(s: State)
    requires CountOk(s)
    ensures CountOk(DoLaunch(s))
  {
    assert DoLaunch(s).threads[..|s.threads|] == s.threads;
  }

  lemma CreateCount(s: State, t: nat, created: bool)
    requires CountOk(s) && Enabled(s, Create(t, created)) && LifeOk(s.threads[t])
    ensures CountOk(DoCreate(s, t, created))
  {
    UnfreedSet(s.threads, t, DoCreate(s, t, created).threads[t]);
  }

  lemma FinishCount(s: State, t: nat)
    requires ListsOk(s) && HeldOk(s) && CountOk(s) && Enabled(s, Finish(t))
    ensures CountOk(DoFinish(s, t))
  {
    FinishHeld(s, t);
    FinishEffect(s, t);
    hide CountOk, ListsOk, HeldOk, Listed;
    QuietCount(s, DoFinish(s, t));
  }

  lemma CountKept(s: State, step: Step)
    requires ListsOk(s) && HeldOk(s) && CountOk(s) && Enabled(s, step)
    ensures CountOk(Do(s, step))
  {
    hide CountOk, HeldOk, Listed, LifeOk, Short;
    match step
    case Launch => LaunchCount(s);
    case Create(t, created) => CreateCount(s, t, created);
    case Finish(t) => FinishCount(s, t);
    case Free(p) => FreeCount(s, p);
    case _ =>
      hide ListsOk;
      QuietCount(s, Do(s, step));
  }

  /** A step that joins nobody. */
  lemma QuietLog(s: State, s': State)
    requires LogOk(s) && s'.log == s.log && |s'.threads| == |s.threads|
    requires forall i :: 0 <= i < |s.threads| ==> s'.threads[i].reaped == s.threads[i].reaped
    ensures LogOk(s')
  {
  }

  lemma JoinLog(s: State, p: Place)
    requires ListsOk(s) && HeldOk(s) && OrderOk(s) && LogOk(s) && Enabled(s, Join(p))
    ensures LogOk(DoJoin(s, p))
  {
    var s', t := DoJoin(s, p), JoinsAt(s, p).todo[0];
    HeadIs(s, p);
    JoinEffect(s, p);
    assert s'.log == s.log + [(p, t)];
    assert s'.log[..|s.log|] == s.log;
    assert p.ByThread? ==> Listed(s, p, t) && Before(s.threads, t, p.t);
    hide DoJoin, ListsOk, HeldOk, OrderOk, Listed, JoinsAt;
  }

  lemma LogKept(s: State, step: Step)
    requires ListsOk(s) && HeldOk(s) && OrderOk(s) && LogOk(s) && Enabled(s, step)
    ensures LogOk(Do(s, step))
  {
    hide LogOk, OrderOk;
    match step
    case Launch => LaunchLog(s);
    case Join(p) => JoinLog(s, p);
    case Free(p) =>
      HeadIs(s, p);
      FreeEffect(s, p);
      hide ListsOk, HeldOk, Listed;
      QuietLog(s, DoFree(s, p));
    case Finish(t) =>
      FinishHeld(s, t);
      FinishEffect(s, t);
      hide ListsOk, HeldOk, Listed;
      QuietLog(s, DoFinish(s, t));
    case _ =>
      hide ListsOk, HeldOk, Listed;
      QuietLog(s, Do(s, step));
  }

  lemma LaunchLog(s: State)
    requires LogOk(s)
    ensures LogOk(DoLaunch(s))
  {
    NeverJoined(s.log, |s.threads|);
  }

  lemma {:induction false} NeverJoined(log: seq<(Place, nat)>, t: nat)
    requires forall i :: 0 <= i < |log| ==> log[i].1 < t
    ensures Joined(log, t) == 0
  {
    if log != [] {
      NeverJoined(log[..|log| - 1], t);
    }
  }

  /** What a caller knows stays true while threads only get freed. */
  lemma StillCleared(threads: seq<Thread>, threads': seq<Thread>, caller: Caller)
    requires CallerOk(threads, caller) && |threads| <= |threads'|
    requires forall i :: 0 <= i < |threads| ==> Gone(threads[i]) ==> Gone(threads'[i])
    ensures CallerOk(threads', caller)
  {
  }

  lemma FreedStays(s: State, step: Step)
    requires ListsOk(s) && HeldOk(s) && Enabled(s, step)
    ensures var s' := Do(s, step);
            |s.threads| <= |s'.threads| && forall i :: 0 <= i < |s.threads| ==> Gone(s.threads[i]) ==> Gone(s'.threads[i])
  {
    match step
    case Free(p) =>
      HeadIs(s, p);
      FreeEffect(s, p);
    case Join(p) =>
      JoinEffect(s, p);
    case Finish(t) =>
      FinishHeld(s, t);
      FinishEffect(s, t);
    case _ =>
  }

  lemma ClearedKept(s: State, step: Step)
    requires ListsOk(s) && HeldOk(s) && CountOk(s) && ClearedOk(s) && Enabled(s, step)
    ensures ClearedOk(Do(s, step))
  {
    var s' := Do(s, step);
    FreedStays(s, step);
    if s.count == 0 {
      NoneUnfreed(s.threads);
    }
    forall c | 0 <= c < |s'.callers|
      ensures CallerOk(s'.threads, s'.callers[c])
    {
      if c < |s.callers| {
        StillCleared(s.threads, s'.threads, s.callers[c]);
      }
    }
  }

  lemma StepKeeps(s: State, step: Step)
    requires Inv(s) && Enabled(s, step)
    ensures Inv(Do(s, step))
  {
    hide ListsOk, HeldOk, OrderOk, CountOk, LogOk, ClearedOk, Do, Enabled;
    ListsKept(s, step);
    HeldKept(s, step);
    OrderKept(s, step);
    CountKept(s, step);
    LogKept(s, step);
    ClearedKept(s, step);
  }

  /** A run: the steps in turn, those not enabled passed over; so every interleaving is one. */
  function Run(steps: seq<Step>): State {
    if steps == [] then Init()
    else
      var s, step := Run(steps[..|steps| - 1]), steps[|steps| - 1];
      if Enabled(s, step) then Do(s, step) else s
  }

  lemma InitInv()
    ensures Inv(Init())
  {
  }

  lemma {:induction false} RunInv(steps: seq<Step>)
    ensures Inv(Run(steps))
  {
    if steps == [] {
      InitInv();
    } else {
      var n := |steps| - 1;
      RunInv(steps[..n]);
      hide Inv, Enabled, Do;
      var s := Run(steps[..n]);
      if Enabled(s, steps[n]) {
        StepKeeps(s, steps[n]);
      }
    }
  }

  // ---------- what every run guarantees ----------

  /**
    In every interleaving the shared list has at most one entry, the count is the
    number of launched threads not yet joined and freed plus the outside ones, and
    each thread was joined at most once, never by itself.
   */
  lemma Safety(steps: seq<Step>)
    ensures var s := Run(steps);
            && |s.pending| <= 1
            && s.count == Unfreed(s.threads) + s.external
            && (forall t :: 0 <= t < |s.threads| ==> Joined(s.log, t) <= 1)
            && (forall i :: 0 <= i < |s.log| ==> s.log[i].0 != ByThread(s.log[i].1))
            && (forall t :: 0 <= t < |s.threads| && s.threads[t].freed ==> Joined(s.log, t) == 1)
  {
    RunInv(steps);
    hide Run, HeldOk, OrderOk, ClearedOk;
  }

  /** A thread waits only for threads released before it, so no cycle of joins can form. */
  lemma WaitsForEarlier(steps: seq<Step>, t: nat, u: nat)
    requires t < |Run(steps).threads| && u in Run(steps).threads[t].joins.todo
    ensures u < |Run(steps).threads| && Run(steps).threads[u].order < Run(steps).threads[t].order
  {
    RunInv(steps);
    assert Listed(Run(steps), ByThread(t), u);
    hide Run, HeldOk, ListsOk, CountOk, LogOk, ClearedOk;
  }

  /** The call has decided to return success. */
  predicate Decided(caller: Caller) {
    caller.ok && (caller.phase.Returned? || (caller.phase.Clearing? && caller.phase.done))
  }

  /** A call that has decided to succeed had decided before, or sees a zero count now. */
  lemma DecidedWhen(s: State, step: Step, c: nat)
    requires Inv(s) && Enabled(s, step) && c < |Do(s, step).callers| && Decided(Do(s, step).callers[c])
    ensures c < |s.callers|
    ensures || (Decided(s.callers[c]) && s.callers[c].cleared == Do(s, step).callers[c].cleared)
            || (step.Collect? && step.c == c && s.callers[c].phase.Waiting? && s.count == 0 && |s.threads| == Do(s, step).callers[c].cleared)
  {
    hide ListsOk, HeldOk, OrderOk, CountOk, LogOk, ClearedOk, CallerOk, Hand;
    match step
    case Collect(d, late) => CollectCallers(s, d, late);
    case _ =>
  }

  lemma CollectCallers(s: State, c: nat, late: bool)
    requires Enabled(s, Collect(c, late))
    ensures var s' := DoCollect(s, c, late);
            && |s'.callers| == |s.callers| && (forall d :: 0 <= d < |s.callers| && d != c ==> s'.callers[d] == s.callers[d])
            && (Decided(s'.callers[c]) ==> s.count == 0 && s'.callers[c].cleared == |s.threads|)
  {
  }

  /** A caller that has decided to succeed did so at a moment of the run with a zero count and nothing counted outside. */
  lemma {:induction false} DecidedAt(steps: seq<Step>, c: nat) returns (k: nat)
    requires c < |Run(steps).callers| && Decided(Run(steps).callers[c])
    ensures k < |steps| && steps[k].Collect? && steps[k].c == c
    ensures var s := Run(steps[..k]);
            && c < |s.callers| && s.callers[c].phase.Waiting? && s.count == 0 && s.external == 0
            && |s.threads| == Run(steps).callers[c].cleared
  {
    var n := |steps| - 1;
    var s, step := Run(steps[..n]), steps[n];
    RunInv(steps[..n]);
    hide Inv, Enabled, Do, Decided;
    if Enabled(s, step) {
      DecidedWhen(s, step, c);
      if Decided(s.callers[c]) && s.callers[c].cleared == Run(steps).callers[c].cleared {
        k := DecidedAt(steps[..n], c);
        assert steps[..n][..k] == steps[..k];
      } else {
        k := n;
        ZeroMeansNone(s);
      }
    } else {
      k := DecidedAt(steps[..n], c);
      assert steps[..n][..k] == steps[..k];
    }
  }

  /** A zero count: nothing counted outside, and every thread joined and freed or never created. */
  lemma ZeroMeansNone(s: State)
    requires Inv(s) && s.count == 0
    ensures s.external == 0 && forall t :: 0 <= t < |s.threads| ==> Gone(s.threads[t])
  {
    hide ListsOk, HeldOk, OrderOk, LogOk, ClearedOk;
    NoneUnfreed(s.threads);
  }

  /**
    A join-all that returned success saw, at a moment k of the run while it was
    waiting, a zero count; all threads launched until then were and are gone.
   */
  lemma SuccessMeansAll(steps: seq<Step>, c: nat) returns (k: nat)
    requires c < |Run(steps).callers| && Run(steps).callers[c].phase.Returned? && Run(steps).callers[c].ok
    ensures k < |steps|
    ensures var then_, now := Run(steps[..k]), Run(steps);
            && c < |then_.callers| && then_.callers[c].phase.Waiting? && then_.count == 0 && then_.external == 0
            && |then_.threads| == now.callers[c].cleared <= |now.threads|
            && (forall t :: 0 <= t < |then_.threads| ==> Gone(then_.threads[t]) && Gone(now.threads[t]))
  {
    k := DecidedAt(steps, c);
    RunInv(steps);
    RunInv(steps[..k]);
    ZeroMeansNone(Run(steps[..k]));
    hide Run, HeldOk, OrderOk, ListsOk, CountOk, LogOk;
  }

  /** Increments from outside, less the decrements that had one to take back. */
  function Outside(steps: seq<Step>): nat {
    if steps == [] then 0
    else
      var n, step := Outside(steps[..|steps| - 1]), steps[|steps| - 1];
      if step == Increment then n + 1 else if step == Decrement && n > 0 then n - 1 else n
  }

  function Launches(steps: seq<Step>): nat {
    if steps == [] then 0
    else Launches(steps[..|steps| - 1]) + (if steps[|steps| - 1] == Launch then 1 else 0)
  }

  /** Which of the calls to join_all had a timeout, in order. */
  function Timeouts(steps: seq<Step>): seq<bool> {
    if steps == [] then []
    else Timeouts(steps[..|steps| - 1]) + (if steps[|steps| - 1].Begin? then [steps[|steps| - 1].timed] else [])
  }

  ghost predicate AsAsked(s: State, steps: seq<Step>) {
    && s.external == Outside(steps) && |s.threads| == Launches(steps) && |s.callers| == |Timeouts(steps)|
    && (forall c :: 0 <= c < |s.callers| ==> s.callers[c].timed == Timeouts(steps)[c] && (!s.callers[c].ok ==> s.callers[c].timed))
  }

  /**
    In every run, whatever the threads do: as many threads as were launched, as many outside counts as were asked
    for, and every caller with the timeout it was given; without one it never fails.
   */
  lemma {:induction false} AskedFor(steps: seq<Step>)
    ensures AsAsked(Run(steps), steps)
  {
    hide Do, Enabled;
    if steps != [] {
      var n := |steps| - 1;
      AskedFor(steps[..n]);
      AskedNext(Run(steps[..n]), steps[..n], steps[n]);
      assert steps[..n] + [steps[n]] == steps;
    }
  }

  lemma AskedNext(s: State, before: seq<Step>, step: Step)
    requires AsAsked(s, before)
    ensures AsAsked(if Enabled(s, step) then Do(s, step) else s, before + [step])
  {
    assert (before + [step])[..|before|] == before;
  }

  /** The moment a caller decides to return success: a zero count, nothing outside, nothing pending, nobody unjoined. */
  lemma SuccessSawZero(s: State, c: nat, late: bool)
    requires Inv(s) && Enabled(s, Collect(c, late))
    ensures var s' := DoCollect(s, c, late);
            s'.callers[c].ok && s'.callers[c].phase.done <==> s.count == 0 && !late
    ensures s.count == 0 ==>
              && s.external == 0 && s.pending == [] && DoCollect(s, c, late).callers[c].cleared == |s.threads|
              && forall t :: 0 <= t < |s.threads| ==> Gone(s.threads[t])
  {
    assert CallerOk(s.threads, s.callers[c]);
    if s.count == 0 {
      NoneUnfreed(s.threads);
    }
    if s.pending != [] {
      assert Listed(s, Pending, s.pending[0]);
      SomeUnfreed(s.threads, s.pending[0]);
    }
  }

  /** The threads that could move: join, free or return. */
  predicate CanMove(s: State, t: nat) {
    Enabled(s, Join(ByThread(t))) || Enabled(s, Free(ByThread(t))) || Enabled(s, Leave(t))
  }

  /** The thread t waits for u: u is t itself, or t's unjoined head is or waits for it. */
  ghost predicate WaitsFor(s: State, t: nat, u: nat)
    requires Inv(s) && t < |s.threads|
    decreases s.threads[t].order
  {
    || t == u
    || (var joins := s.threads[t].joins;
        joins.todo != [] && !joins.waited && (HeadBefore(s, t); WaitsFor(s, joins.todo[0], u)))
  }

  lemma HeadBefore(s: State, t: nat)
    requires Inv(s) && t < |s.threads| && s.threads[t].joins.todo != []
    ensures Before(s.threads, s.threads[t].joins.todo[0], t) && Released(s.threads[s.threads[t].joins.todo[0]])
  {
    assert Listed(s, ByThread(t), s.threads[t].joins.todo[0]);
    hide ListsOk, CountOk, LogOk, ClearedOk;
  }

  /** Joining never deadlocks: of the threads a joining thread waits for, directly or not, one can move. */
  lemma {:induction false} NoDeadlock(s: State, t: nat) returns (u: nat)
    requires Inv(s) && t < |s.threads| && s.threads[t].phase.Joining?
    ensures WaitsFor(s, t, u) && u < |s.threads| && CanMove(s, u)
    decreases s.threads[t].order
  {
    u := t;
    var joins := s.threads[t].joins;
    ShortAt(s, ByThread(t));
    hide Inv, ListsOk;
    if joins.todo != [] {
      HeadBefore(s, t);
      var v := joins.todo[0];
      if !joins.waited && s.threads[v].phase.Joining? {
        u := NoDeadlock(s, v);
      }
    }
  }

  /** When every launched thread has returned and no join-all is under way, at most one is left unjoined. */
  lemma BacklogIsOne(s: State, t: nat, u: nat)
    requires Inv(s) && t < |s.threads| && u < |s.threads| && !Gone(s.threads[t]) && !Gone(s.threads[u])
    requires forall i :: 0 <= i < |s.threads| ==> s.threads[i].phase.Done? || s.threads[i].phase.Failed?
    requires forall c :: 0 <= c < |s.callers| ==> s.callers[c].joins == NOTHING
    ensures t == u && s.pending == [t]
  {
    OnlyPending(s, t);
    OnlyPending(s, u);
  }

  lemma OnlyPending(s: State, t: nat)
    requires ListsOk(s) && HeldOk(s) && t < |s.threads| && !s.threads[t].freed && s.threads[t].phase.Done?
    requires forall i :: 0 <= i < |s.threads| ==> s.threads[i].joins == NOTHING
    requires forall c :: 0 <= c < |s.callers| ==> s.callers[c].joins == NOTHING
    ensures s.pending == [t]
  {
    assert Listed(s, s.threads[t].holder, t);
  }
}
