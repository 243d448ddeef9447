/**
  The task scheduler of source/task_scheduler.c. Callbacks may schedule and
  cancel tasks; a client is given by what its callbacks do, so that every
  terminating client behaviour is covered.
 */
module TaskSchedulers {
  import opened Options
  import opened Sequences
  import opened PriorityQueues

  type TaskId = nat

  const UINT64_MAX: nat := 0xFFFF_FFFF_FFFF_FFFF
  type Time = t: nat | t <= UINT64_MAX

  /** One accepted scheduling of a task: its timestamp, and its number among all accepted ones. */
  datatype Job = Job(task: TaskId, time: Time, id: nat)

  datatype Status = RunReady | Canceled

  /** A call of a task's function, from the run loop or from cancel_task. */
  datatype Event = Event(job: Job, status: Status, byRun: bool)

  /** What a callback does; a cancel names what the cancelled task's own callback does. */
  datatype Action =
    | ScheduleNow(task: TaskId)
    | ScheduleFuture(task: TaskId, time: Time, containerGrows: bool, backGrows: bool)
    | Cancel(task: TaskId, callback: seq<Action>)

  /** s_compare_timestamps. */
  predicate Later(a: Job, b: Job) {
    a.time > b.time
  }

  lemma LaterOrders(m: multiset<Job>)
    ensures OrderOn(Later, m)
  {
  }

  ghost predicate Sorted(s: seq<Job>) {
    forall i, j :: 0 <= i < j < |s| ==> s[i].time <= s[j].time
  }

  /** Position of the job of a task, or the length. */
  function IndexOf(s: seq<Job>, task: TaskId): (i: nat)
    ensures i <= |s| && (i < |s| ==> s[i].task == task)
    ensures forall j :: 0 <= j < i ==> s[j].task != task
  {
    if s == [] then 0 else if s[0].task == task then 0 else 1 + IndexOf(s[1..], task)
  }

  lemma WithoutSorted(s: seq<Job>, i: nat)
    requires i < |s| && Sorted(s)
    ensures Sorted(Without(s, i))
  {
  }

  /** The jobs of s that are not in gone, in order. */
  ghost function Keep(s: seq<Job>, gone: set<Job>): (r: seq<Job>) {
    if s == [] then []
    else (if s[0] in gone then [] else [s[0]]) + Keep(s[1..], gone)
  }

  lemma KeepHead(s: seq<Job>, gone: set<Job>)
    requires s != []
    ensures Keep(s, gone) == (if s[0] in gone then [] else [s[0]]) + Keep(s[1..], gone)
  {
  }

  lemma KeepNone(gone: set<Job>)
    ensures Keep([], gone) == []
  {
  }

  lemma {:induction false} KeepAppend(a: seq<Job>, b: seq<Job>, gone: set<Job>)
    ensures Keep(a + b, gone) == Keep(a, gone) + Keep(b, gone)
  {
    hide Keep;
    if a == [] {
      KeepNone(gone);
      assert a + b == b;
    } else {
      KeepAppend(a[1..], b, gone);
      KeepHead(a, gone);
      KeepHead(a + b, gone);
      assert (a + b)[1..] == a[1..] + b;
    }
  }

  lemma {:induction false} KeepTwice(s: seq<Job>, g: set<Job>, h: set<Job>)
    ensures Keep(Keep(s, g), h) == Keep(s, g + h)
  {
    if s != [] {
      KeepTwice(s[1..], g, h);
      KeepAppend(if s[0] in g then [] else [s[0]], Keep(s[1..], g), h);
      assert Keep([s[0]], h) == if s[0] in h then [] else [s[0]];
    }
  }

  lemma {:induction false} KeepAll(s: seq<Job>, gone: set<Job>)
    requires forall j :: j in s ==> j !in gone
    ensures Keep(s, gone) == s
  {
    if s != [] {
      KeepAll(s[1..], gone);
    }
  }

  lemma NowhereElse(s: seq<Job>, i: nat)
    requires i < |s| && multiset(s)[s[i]] == 1
    ensures s[i] !in s[..i] && s[i] !in s[i + 1..]
  {
    var a, b := s[..i], s[i + 1..];
    assert s == a + [s[i]] + b;
    assert multiset(s) == multiset(a) + multiset{s[i]} + multiset(b);
    assert s[i] in a <==> s[i] in multiset(a);
    assert s[i] in b <==> s[i] in multiset(b);
  }

  /** Dropping the only occurrence of a job keeps all the others. */
  lemma {:induction false} KeepOne(s: seq<Job>, i: nat)
    requires i < |s| && s[i] !in s[..i] && s[i] !in s[i + 1..]
    ensures Keep(s, {s[i]}) == Without(s, i)
    decreases i
  {
    if i == 0 {
      KeepAll(s[1..], {s[i]});
      assert Without(s, 0) == s[1..];
    } else {
      assert s[0] in s[..i];
      assert s[1..][..i - 1] == s[..i][1..] && s[1..][i..] == s[i + 1..];
      KeepOne(s[1..], i - 1);
      assert Without(s, i) == [s[0]] + Without(s[1..], i - 1);
    }
  }

  // ---------- the log ----------

  ghost function Jobs(log: seq<Event>): (r: seq<Job>)
    ensures |r| == |log|
    ensures forall i :: 0 <= i < |log| ==> r[i] == log[i].job
  {
    seq(|log|, i requires 0 <= i < |log| => log[i].job)
  }

  /** The jobs run by the run loop, in order. */
  ghost function RunJobs(log: seq<Event>): seq<Job> {
    if log == [] then []
    else (if log[0].byRun then [log[0].job] else []) + RunJobs(log[1..])
  }

  /** The jobs run by cancel_task. */
  ghost function CancelledJobs(log: seq<Event>): set<Job> {
    set e | e in log && !e.byRun :: e.job
  }

  lemma LogAppend(a: seq<Event>, b: seq<Event>)
    ensures Jobs(a + b) == Jobs(a) + Jobs(b)
    ensures RunJobs(a + b) == RunJobs(a) + RunJobs(b)
    ensures CancelledJobs(a + b) == CancelledJobs(a) + CancelledJobs(b)
  {
    assert Jobs(a + b) == Jobs(a) + Jobs(b);
    RunAppend(a, b);
    CancelledAppend(a, b);
  }

  lemma RunNone()
    ensures RunJobs([]) == []
  {
  }

  lemma RunHead(log: seq<Event>)
    requires log != []
    ensures RunJobs(log) == (if log[0].byRun then [log[0].job] else []) + RunJobs(log[1..])
  {
  }

  lemma {:induction false} RunAppend(a: seq<Event>, b: seq<Event>)
    ensures RunJobs(a + b) == RunJobs(a) + RunJobs(b)
  {
    hide RunJobs;
    if a == [] {
      RunNone();
      assert a + b == b;
    } else {
      RunAppend(a[1..], b);
      assert (a + b)[1..] == a[1..] + b;
      RunHead(a);
      RunHead(a + b);
    }
  }

  lemma CancelledAppend(a: seq<Event>, b: seq<Event>)
    ensures CancelledJobs(a + b) == CancelledJobs(a) + CancelledJobs(b)
  {
    assert forall e :: e in a + b <==> e in a || e in b;
  }

  lemma LogOne(e: Event)
    ensures Jobs([e]) == [e.job]
    ensures RunJobs([e]) == if e.byRun then [e.job] else []
    ensures CancelledJobs([e]) == if e.byRun then {} else {e.job}
  {
    assert [e][1..] == [];
    assert e in [e];
  }

  lemma {:induction false} JobsOfCancels(log: seq<Event>)
    requires forall e :: e in log ==> !e.byRun
    ensures RunJobs(log) == [] && CancelledJobs(log) == set j | j in Jobs(log)
  {
    if log != [] {
      JobsOfCancels(log[1..]);
      assert log == [log[0]] + log[1..];
      LogAppend([log[0]], log[1..]);
      LogOne(log[0]);
    }
  }

  // ---------- bookkeeping ----------

  /** The scheduler's lists and the task fields it uses, as values. */
  datatype Books = Books(asap: seq<Job>, timed: seq<Job>, running: seq<Job>, heap: multiset<Job>,
                         scheduled: set<TaskId>, linked: set<TaskId>)

  ghost function Listed(b: Books): multiset<Job> {
    multiset(b.asap) + multiset(b.timed) + multiset(b.running)
  }

  ghost function Pending(b: Books): multiset<Job> {
    Listed(b) + b.heap
  }

  ghost function Tasks(m: multiset<Job>): set<TaskId> {
    set j | j in m :: j.task
  }

  /** No job twice, and no two jobs of one task. */
  ghost predicate Apart(m: multiset<Job>) {
    && (forall j :: j in m ==> m[j] == 1)
    && (forall j, k :: j in m && k in m && j.task == k.task ==> j == k)
  }

  lemma TasksAdd(m: multiset<Job>, job: Job)
    ensures Tasks(m + multiset{job}) == Tasks(m) + {job.task}
  {
    assert forall j :: j in m + multiset{job} <==> j in m || j == job;
  }

  lemma ApartAdd(m: multiset<Job>, job: Job)
    ensures Apart(m + multiset{job}) <==> Apart(m) && job.task !in Tasks(m)
  {
    var m' := m + multiset{job};
    assert forall j :: j in m' <==> j in m || j == job;
    assert forall j :: j != job ==> m'[j] == m[j];
    assert m'[job] == m[job] + 1;
  }

  lemma TasksWithin(m: multiset<Job>, m': multiset<Job>)
    ensures Tasks(m) <= Tasks(m + m')
  {
    forall j | j in m
      ensures j in m + m'
    {
    }
  }

  /** Each scheduled task has exactly one pending job; the linked ones are those in a list. */
  ghost predicate BooksOk(b: Books) {
    && Apart(Pending(b))
    && b.scheduled == Tasks(Pending(b))
    && b.linked == Tasks(Listed(b))
    && Sorted(b.timed)
  }

  /** Every accepted scheduling is pending, or has been run, exactly once. */
  ghost predicate Ledger(accepted: seq<Job>, pending: multiset<Job>, log: seq<Event>) {
    && (forall i :: 0 <= i < |accepted| ==> accepted[i].id == i)
    && multiset(accepted) == pending + multiset(Jobs(log))
  }

  /** No job occurs twice among those accepted. */
  lemma AcceptedOnce(accepted: seq<Job>, pending: multiset<Job>, log: seq<Event>, j: Job)
    requires Ledger(accepted, pending, log)
    ensures pending[j] + multiset(Jobs(log))[j] <= 1
  {
    if j in multiset(accepted) {
      assert j in accepted;
      AcceptedCount(accepted, j.id);
    }
  }

  lemma {:induction false} AcceptedCount(accepted: seq<Job>, k: nat)
    requires forall i :: 0 <= i < |accepted| ==> accepted[i].id == i
    requires k < |accepted|
    ensures multiset(accepted)[accepted[k]] == 1
  {
    var a, b := accepted[..k], accepted[k + 1..];
    assert accepted == a + [accepted[k]] + b;
    assert multiset(accepted) == multiset(a) + multiset{accepted[k]} + multiset(b);
    assert forall j :: j in a ==> j.id != k;
    assert forall j :: j in b ==> j.id != k;
  }

  /** A new job for an unscheduled task, in a list or in the heap. */
  lemma AddJob(b: Books, b': Books, job: Job, inList: bool)
    requires BooksOk(b) && job.task !in b.scheduled && Sorted(b'.timed)
    requires Pending(b') == Pending(b) + multiset{job}
    requires Listed(b') == if inList then Listed(b) + multiset{job} else Listed(b)
    requires b'.scheduled == b.scheduled + {job.task}
    requires b'.linked == if inList then b.linked + {job.task} else b.linked
    ensures BooksOk(b')
  {
    hide Apart, Tasks, Listed, Pending, Sorted;
    ApartAdd(Pending(b), job);
    TasksAdd(Pending(b), job);
    TasksAdd(Listed(b), job);
  }

  /** A job leaves a list or the heap, and its task is no longer scheduled. */
  lemma RemoveJob(b: Books, b': Books, job: Job, inList: bool)
    requires BooksOk(b) && Sorted(b'.timed)
    requires Pending(b) == Pending(b') + multiset{job}
    requires Listed(b) == if inList then Listed(b') + multiset{job} else Listed(b')
    requires b'.scheduled == b.scheduled - {job.task}
    requires b'.linked == if inList then b.linked - {job.task} else b.linked
    ensures BooksOk(b')
  {
    TasksWithin(Listed(b'), b'.heap);
    assert Tasks(Listed(b')) <= Tasks(Pending(b'));
    hide Apart, Tasks, Listed, Pending, Sorted;
    ApartAdd(Pending(b'), job);
    TasksAdd(Pending(b'), job);
    TasksAdd(Listed(b'), job);
  }

  /** A job moves from the heap to a list. */
  lemma LinkJob(b: Books, b': Books, job: Job)
    requires BooksOk(b) && b'.timed == b.timed
    requires Pending(b') == Pending(b) && Listed(b') == Listed(b) + multiset{job}
    requires b'.scheduled == b.scheduled && b'.linked == b.linked + {job.task}
    ensures BooksOk(b')
  {
    hide Apart, Tasks, Listed, Pending, Sorted;
    TasksAdd(Listed(b), job);
  }

  /** A job moves from one list to another. */
  lemma RelinkJob(b: Books, b': Books)
    requires BooksOk(b) && Sorted(b'.timed)
    requires Pending(b') == Pending(b) && Listed(b') == Listed(b)
    requires b'.scheduled == b.scheduled && b'.linked == b.linked
    ensures BooksOk(b')
  {
  }

  /** A scheduled task that is in no list has its job in the heap. */
  lemma InHeap(b: Books, task: TaskId) returns (job: Job)
    requires BooksOk(b) && task in b.scheduled && task !in b.linked
    ensures job in b.heap && job.task == task
  {
    job :| job in Pending(b) && job.task == task;
    assert job !in Listed(b);
  }

  lemma InList(b: Books, task: TaskId)
    requires BooksOk(b) && task in b.linked
    ensures IndexOf(b.asap, task) < |b.asap| || IndexOf(b.timed, task) < |b.timed|
            || IndexOf(b.running, task) < |b.running|
  {
    var job :| job in Listed(b) && job.task == task;
    assert job in b.asap || job in b.timed || job in b.running by {
      assert job in multiset(b.asap) || job in multiset(b.timed) || job in multiset(b.running);
    }
  }

  ghost predicate PairsOk(pairs: multiset<(Job, Node?)>, nodes: map<TaskId, Node>) {
    forall p :: p in pairs ==> p.0.task in nodes && p.1 == nodes[p.0.task]
  }

  ghost predicate Injective(nodes: map<TaskId, Node>) {
    forall t, u :: t in nodes && u in nodes && nodes[t] == nodes[u] ==> t == u
  }

  /** A queued job's node is its task's node. */
  lemma PairedNode(q: PriorityQueue<Job>, nodes: map<TaskId, Node>, job: Job)
    requires q.Linked() && PairsOk(q.Pairs(), nodes) && job in q.container
    ensures job.task in nodes && nodes[job.task] in q.Nodes()
  {
    var i :| 0 <= i < |q.container| && q.container[i] == job;
    var z := Zip(q.container, q.backpointers);
    assert z[i] in multiset(z);
  }

  lemma UnpairedNode(q: PriorityQueue<Job>, nodes: map<TaskId, Node>, task: TaskId)
    requires q.Linked() && PairsOk(q.Pairs(), nodes) && Injective(nodes) && task in nodes
    requires forall j :: j in q.container ==> j.task != task
    ensures nodes[task] !in q.Nodes()
  {
    forall n | n in q.Nodes()
      ensures n != nodes[task]
    {
      var i :| 0 <= i < |q.backpointers.value| && q.backpointers.value[i] == n;
      var z := Zip(q.container, q.backpointers);
      assert z[i] in multiset(z);
      assert q.container[i] in q.container;
    }
  }

  /** Only tasks' nodes are in the queue. */
  lemma NodesWithin(q: PriorityQueue<Job>, nodes: map<TaskId, Node>)
    requires q.Linked() && PairsOk(q.Pairs(), nodes)
    ensures q.Nodes() <= nodes.Values
  {
    forall n | n in q.Nodes()
      ensures n in nodes.Values
    {
      var i :| 0 <= i < |q.backpointers.value| && q.backpointers.value[i] == n;
      var z := Zip(q.container, q.backpointers);
      assert z[i] in multiset(z);
    }
  }

  // ---------- accounts ----------

  ghost predicate Account(b: Books, accepted: seq<Job>, log: seq<Event>) {
    BooksOk(b) && Ledger(accepted, Pending(b), log)
  }

  /** The job has left its list or the heap; its task still counts as scheduled. */
  ghost predicate Out(b: Books, accepted: seq<Job>, log: seq<Event>, job: Job) {
    BooksOk(b.(scheduled := b.scheduled - {job.task})) && Ledger(accepted, Pending(b) + multiset{job}, log)
  }

  lemma ScheduleAsap(b: Books, accepted: seq<Job>, log: seq<Event>, job: Job)
    requires Account(b, accepted, log) && job.task !in b.scheduled && job.id == |accepted|
    ensures Account(b.(asap := b.asap + [job], scheduled := b.scheduled + {job.task}, linked := b.linked + {job.task}),
                    accepted + [job], log)
  {
    var b' := b.(asap := b.asap + [job], scheduled := b.scheduled + {job.task}, linked := b.linked + {job.task});
    assert Listed(b') == Listed(b) + multiset{job} && Pending(b') == Pending(b) + multiset{job};
    hide Ledger, Listed, Pending, Apart, Tasks;
    Accept(accepted, Pending(b), log, job);
    AddJob(b, b', job, true);
  }

  lemma ScheduleHeap(b: Books, accepted: seq<Job>, log: seq<Event>, job: Job)
    requires Account(b, accepted, log) && job.task !in b.scheduled && job.id == |accepted|
    ensures Account(b.(heap := b.heap + multiset{job}, scheduled := b.scheduled + {job.task}), accepted + [job], log)
  {
    var b' := b.(heap := b.heap + multiset{job}, scheduled := b.scheduled + {job.task});
    assert Listed(b') == Listed(b) && Pending(b') == Pending(b) + multiset{job};
    hide Ledger, Listed, Pending, Apart, Tasks;
    Accept(accepted, Pending(b), log, job);
    AddJob(b, b', job, false);
  }

  /** The job stands behind every job no later than it, and before the rest. */
  ghost predicate Placed(s: seq<Job>, job: Job, s': seq<Job>) {
    exists i: nat :: InsertedAt(s, job, i, s')
  }

  ghost predicate InsertedAt(s: seq<Job>, job: Job, i: nat, s': seq<Job>) {
    && i <= |s| && s' == s[..i] + [job] + s[i..]
    && (forall j :: 0 <= j < i ==> s[j].time <= job.time) && (i < |s| ==> s[i].time > job.time)
  }

  lemma PlacedSorted(s: seq<Job>, job: Job, s': seq<Job>)
    requires Sorted(s) && Placed(s, job, s')
    ensures Sorted(s')
  {
    var i: nat :| InsertedAt(s, job, i, s');
  }

  lemma PlacedBag(s: seq<Job>, job: Job, s': seq<Job>)
    requires Placed(s, job, s')
    ensures multiset(s') == multiset(s) + multiset{job}
  {
    var i: nat :| InsertedAt(s, job, i, s');
    assert s == s[..i] + s[i..];
  }

  lemma ScheduleTimed(b: Books, accepted: seq<Job>, log: seq<Event>, job: Job, timed: seq<Job>)
    requires Account(b, accepted, log) && job.task !in b.scheduled && job.id == |accepted|
    requires Placed(b.timed, job, timed)
    ensures Account(b.(timed := timed, scheduled := b.scheduled + {job.task}, linked := b.linked + {job.task}),
                    accepted + [job], log)
  {
    hide BooksOk, Ledger, Apart, Tasks, Sorted, Placed;
    var b' := b.(timed := timed, scheduled := b.scheduled + {job.task}, linked := b.linked + {job.task});
    SortedOf(b);
    PlacedSorted(b.timed, job, timed);
    PlacedBag(b.timed, job, timed);
    assert Listed(b') == Listed(b) + multiset{job} && Pending(b') == Pending(b) + multiset{job};
    Accept(accepted, Pending(b), log, job);
    AddJob(b, b', job, true);
  }

  /** Taking a job out of a list, or out of the heap. */
  lemma TakeOutJob(b: Books, b': Books, accepted: seq<Job>, log: seq<Event>, job: Job, inList: bool)
    requires Account(b, accepted, log) && Sorted(b'.timed) && b'.scheduled == b.scheduled
    requires Pending(b) == Pending(b') + multiset{job}
    requires Listed(b) == if inList then Listed(b') + multiset{job} else Listed(b')
    requires b'.linked == if inList then b.linked - {job.task} else b.linked
    ensures Out(b', accepted, log, job)
  {
    var b'' := b'.(scheduled := b'.scheduled - {job.task});
    assert Pending(b'') == Pending(b') && Listed(b'') == Listed(b');
    hide Ledger, Listed, Pending, Apart, Tasks, Sorted;
    RemoveJob(b, b'', job, inList);
  }

  lemma TakeFromAsap(b: Books, accepted: seq<Job>, log: seq<Event>, i: nat)
    requires Account(b, accepted, log) && i < |b.asap|
    ensures Out(b.(asap := Without(b.asap, i), linked := b.linked - {b.asap[i].task}), accepted, log, b.asap[i])
  {
    SortedOf(b);
    BagWithout(b.asap, i);
    TakeOutJob(b, b.(asap := Without(b.asap, i), linked := b.linked - {b.asap[i].task}), accepted, log, b.asap[i], true);
  }

  lemma TakeFromTimed(b: Books, accepted: seq<Job>, log: seq<Event>, i: nat)
    requires Account(b, accepted, log) && i < |b.timed|
    ensures Out(b.(timed := Without(b.timed, i), linked := b.linked - {b.timed[i].task}), accepted, log, b.timed[i])
  {
    SortedOf(b);
    BagWithout(b.timed, i);
    WithoutSorted(b.timed, i);
    TakeOutJob(b, b.(timed := Without(b.timed, i), linked := b.linked - {b.timed[i].task}), accepted, log, b.timed[i], true);
  }

  lemma TakeFromRunning(b: Books, accepted: seq<Job>, log: seq<Event>, i: nat)
    requires Account(b, accepted, log) && i < |b.running|
    ensures Out(b.(running := Without(b.running, i), linked := b.linked - {b.running[i].task}), accepted, log, b.running[i])
  {
    SortedOf(b);
    BagWithout(b.running, i);
    TakeOutJob(b, b.(running := Without(b.running, i), linked := b.linked - {b.running[i].task}),
               accepted, log, b.running[i], true);
  }

  lemma TakeFromHeap(b: Books, accepted: seq<Job>, log: seq<Event>, job: Job, heap: multiset<Job>)
    requires Account(b, accepted, log) && b.heap == heap + multiset{job}
    ensures Out(b.(heap := heap), accepted, log, job)
  {
    SortedOf(b);
    assert Pending(b) == Pending(b.(heap := heap)) + multiset{job};
    TakeOutJob(b, b.(heap := heap), accepted, log, job, false);
  }

  /** A job leaves what is pending for the log. */
  lemma LedgerRun(accepted: seq<Job>, pending: multiset<Job>, log: seq<Event>, e: Event)
    requires Ledger(accepted, pending + multiset{e.job}, log)
    ensures Ledger(accepted, pending, log + [e])
  {
    hide Jobs;
    LogAppend(log, [e]);
    LogOne(e);
    assert multiset(Jobs(log + [e])) == multiset(Jobs(log)) + multiset{e.job};
  }

  /** Running the job closes the account again. */
  lemma RunOut(b: Books, accepted: seq<Job>, log: seq<Event>, job: Job, e: Event)
    requires Out(b, accepted, log, job) && e.job == job
    ensures Account(b.(scheduled := b.scheduled - {job.task}), accepted, log + [e])
  {
    hide BooksOk, Ledger;
    assert Pending(b.(scheduled := b.scheduled - {job.task})) == Pending(b);
    LedgerRun(accepted, Pending(b), log, e);
  }

  // ---------- what clients' actions cause ----------

  /**
    The schedulings accepted, the calls of task functions, the tasks run as cancelled
    while not scheduled, and the jobs to be run as soon as possible.
   */
  datatype History = History(accepted: seq<Job>, log: seq<Event>, strays: seq<TaskId>, asap: seq<Job>)

  /** The scheduling of a task that was accepted and has not been run. */
  ghost function Live(accepted: seq<Job>, log: seq<Event>, task: TaskId): Option<Job> {
    if accepted == [] then None
    else
      var n := |accepted| - 1;
      if accepted[n].task == task && accepted[n] !in Jobs(log) then Some(accepted[n]) else Live(accepted[..n], log, task)
  }

  /** A task that is known and not scheduled is scheduled; any other call to schedule is one a client must not make. */
  ghost function Accepts(known: set<TaskId>, h: History, task: TaskId, time: Time, now: bool): History {
    if task in known && Live(h.accepted, h.log, task).None? then
      var job := Job(task, time, |h.accepted|);
      h.(accepted := h.accepted + [job], asap := if now then h.asap + [job] else h.asap)
    else h
  }

  /** What one action of a callback causes, and all it leads to. */
  ghost function Act(known: set<TaskId>, h: History, action: Action): History
    decreases action
  {
    match action
    case ScheduleNow(task) => Accepts(known, h, task, 0, true)
    case ScheduleFuture(task, time, _, _) => Accepts(known, h, task, time, false)
    case Cancel(task, callback) =>
      match Live(h.accepted, h.log, task)
      case Some(job) => Acts(known, h.(log := h.log + [Event(job, Canceled, false)], asap := Keep(h.asap, {job})), callback)
      case None => Acts(known, h.(strays := h.strays + [task]), callback)
  }

  ghost function Acts(known: set<TaskId>, h: History, actions: seq<Action>): History
    decreases actions
  {
    if actions == [] then h
    else
      var n := |actions| - 1;
      Act(known, Acts(known, h, actions[..n]), actions[n])
  }

  ghost function Logged(log: seq<Event>): set<Job> {
    set j | j in Jobs(log)
  }

  /** One turn of the run loop: the first job is run, its function acts, and what that ran is no longer to be run. */
  ghost function Turn(known: set<TaskId>, h: History, running: seq<Job>, status: Status, actions: seq<Action>): (History, seq<Job>)
    requires running != []
  {
    var h' := Acts(known, h.(log := h.log + [Event(running[0], status, true)]), actions);
    (h', Keep(running[1..], Logged(h'.log)))
  }

  /** The first n turns of the run loop over a running list; behave(k) is what the k-th task run does. */
  ghost function Turns(known: set<TaskId>, h: History, running: seq<Job>, status: Status, behave: nat -> seq<Action>, n: nat)
    : (r: (History, seq<Job>))
  {
    if n == 0 then (h, running)
    else
      var (h', rest) := Turns(known, h, running, status, behave, n - 1);
      if rest == [] then (h', rest) else Turn(known, h', rest, status, behave(n - 1))
  }

  /** Actions only add to what was accepted and run. */
  ghost predicate Extends(h: History, h': History) {
    h.accepted <= h'.accepted && h.log <= h'.log && h.strays <= h'.strays
  }

  lemma {:induction false} ActExtends(known: set<TaskId>, h: History, action: Action)
    ensures Extends(h, Act(known, h, action))
    decreases action
  {
    match action
    case Cancel(task, callback) =>
      match Live(h.accepted, h.log, task) {
        case Some(job) => ActsExtend(known, h.(log := h.log + [Event(job, Canceled, false)], asap := Keep(h.asap, {job})), callback);
        case None => ActsExtend(known, h.(strays := h.strays + [task]), callback);
      }
    case _ =>
  }

  lemma {:induction false} ActsExtend(known: set<TaskId>, h: History, actions: seq<Action>)
    ensures Extends(h, Acts(known, h, actions))
    decreases actions
  {
    if actions != [] {
      var n := |actions| - 1;
      ActsExtend(known, h, actions[..n]);
      ActExtends(known, Acts(known, h, actions[..n]), actions[n]);
    }
  }

  lemma {:induction false} TurnsExtend(known: set<TaskId>, h: History, running: seq<Job>, status: Status,
                                       behave: nat -> seq<Action>, n: nat, m: nat)
    requires n <= m
    ensures Extends(Turns(known, h, running, status, behave, n).0, Turns(known, h, running, status, behave, m).0)
    decreases m
  {
    hide Act, Acts, Keep;
    if n < m {
      TurnsExtend(known, h, running, status, behave, n, m - 1);
      var (h', rest) := Turns(known, h, running, status, behave, m - 1);
      if rest != [] {
        ActsExtend(known, h'.(log := h'.log + [Event(rest[0], status, true)]), behave(m - 1));
      }
    }
  }

  lemma {:induction false} ActsSplit(known: set<TaskId>, h: History, a: seq<Action>, b: seq<Action>)
    ensures Acts(known, h, a + b) == Acts(known, Acts(known, h, a), b)
    decreases |b|
  {
    hide Act;
    if b == [] {
      assert a + b == a;
    } else {
      var n := |b| - 1;
      ActsSplit(known, h, a, b[..n]);
      assert (a + b)[..|a| + n] == a + b[..n];
    }
  }

  /** When the function of the n-th task run has done the first i of its actions. */
  ghost function Amid(known: set<TaskId>, h: History, running: seq<Job>, status: Status, behave: nat -> seq<Action>,
                      n: nat, i: nat): (r: History)
  {
    var (h', rest) := Turns(known, h, running, status, behave, n);
    if rest == [] || i > |behave(n)| then h'
    else Acts(known, h'.(log := h'.log + [Event(rest[0], status, true)]), behave(n)[..i])
  }

  /** Every action of a task's function takes effect at once, and what follows only adds to it. */
  lemma TakesEffect(known: set<TaskId>, h: History, running: seq<Job>, status: Status, behave: nat -> seq<Action>,
                    n: nat, i: nat, m: nat)
    requires n < m && Turns(known, h, running, status, behave, n).1 != [] && i < |behave(n)|
    ensures Extends(h, Amid(known, h, running, status, behave, n, i))
    ensures Extends(Act(known, Amid(known, h, running, status, behave, n, i), behave(n)[i]),
                    Turns(known, h, running, status, behave, m).0)
  {
    hide Act, Keep, Acts;
    var (h', rest) := Turns(known, h, running, status, behave, n);
    var actions := behave(n);
    var first := h'.(log := h'.log + [Event(rest[0], status, true)]);
    ActsNext(known, first, actions, i);
    assert actions == actions[..i + 1] + actions[i + 1..];
    ActsSplit(known, first, actions[..i + 1], actions[i + 1..]);
    ActsExtend(known, Acts(known, first, actions[..i + 1]), actions[i + 1..]);
    ActsExtend(known, first, actions[..i]);
    TurnsExtend(known, h, running, status, behave, 0, n);
    NoTurns(known, h, running, status, behave);
    TurnsExtend(known, h, running, status, behave, n + 1, m);
    assert Turns(known, h, running, status, behave, n + 1).0 == Acts(known, first, actions);
  }

  /**
    A task that is scheduled when the function of some task run by run_all cancels it is run as cancelled,
    and not by the run loop; one that is known and not scheduled when it schedules it is accepted.
   */
  lemma Meanwhile(known: set<TaskId>, h: History, running: seq<Job>, status: Status, behave: nat -> seq<Action>,
                  n: nat, i: nat, m: nat)
    requires n < m && Turns(known, h, running, status, behave, n).1 != [] && i < |behave(n)|
    ensures var mid, r, action := Amid(known, h, running, status, behave, n, i), Turns(known, h, running, status, behave, m).0, behave(n)[i];
            var live := Live(mid.accepted, mid.log, action.task);
            && h.log <= r.log
            && (action.Cancel? && live.Some? ==>
                  && Event(live.value, Canceled, false) in r.log[|h.log|..]
                  && (RunJobs(r.log[|h.log|..]) == Keep(running, CancelledJobs(r.log[|h.log|..])) ==>
                        live.value !in RunJobs(r.log[|h.log|..])))
            && (action.Cancel? && live.None? ==> action.task in r.strays)
            && (!action.Cancel? && live.None? && action.task in known ==>
                  Job(action.task, if action.ScheduleNow? then 0 else action.time, |mid.accepted|) in r.accepted)
  {
    hide Live, Keep, RunJobs, Turns, Amid, Acts, CancelledJobs;
    var mid, r, action := Amid(known, h, running, status, behave, n, i), Turns(known, h, running, status, behave, m).0, behave(n)[i];
    TakesEffect(known, h, running, status, behave, n, i, m);
    match action
    case Cancel(task, callback) =>
      match Live(mid.accepted, mid.log, task) {
        case Some(job) =>
          var e := Event(job, Canceled, false);
          ActsExtend(known, mid.(log := mid.log + [e], asap := Keep(mid.asap, {job})), callback);
          InSuffix(h.log, mid.log, e, r.log);
          CancelledIn(r.log[|h.log|..], e);
          NotKept(running, CancelledJobs(r.log[|h.log|..]), job);
        case None =>
          ActsExtend(known, mid.(strays := mid.strays + [task]), callback);
          var strays := Acts(known, mid.(strays := mid.strays + [task]), callback).strays;
          assert strays[|mid.strays|] == task && r.strays[|mid.strays|] == task;
      }
    case ScheduleNow(task) => AcceptedIn(known, mid, task, 0, true, r);
    case ScheduleFuture(task, time, _, _) => AcceptedIn(known, mid, task, time, false, r);
  }

  lemma InSuffix(a: seq<Event>, b: seq<Event>, e: Event, c: seq<Event>)
    requires a <= b && b + [e] <= c
    ensures e in c[|a|..]
  {
    assert c[|a|..][|b| - |a|] == e;
  }

  lemma CancelledIn(log: seq<Event>, e: Event)
    requires e in log && !e.byRun
    ensures e.job in CancelledJobs(log)
  {
  }

  lemma {:induction false} NotKept(s: seq<Job>, gone: set<Job>, j: Job)
    requires j in gone
    ensures j !in Keep(s, gone)
  {
    if s != [] {
      NotKept(s[1..], gone, j);
    }
  }

  lemma AcceptedIn(known: set<TaskId>, h: History, task: TaskId, time: Time, now: bool, r: History)
    requires Extends(Accepts(known, h, task, time, now), r)
    ensures task in known && Live(h.accepted, h.log, task).None? ==> Job(task, time, |h.accepted|) in r.accepted
  {
    if task in known && Live(h.accepted, h.log, task).None? {
      assert r.accepted[|h.accepted|] == Job(task, time, |h.accepted|);
    }
  }

  /** Among jobs accepted once each, those not run are those pending. */
  lemma PendingIs(accepted: seq<Job>, pending: multiset<Job>, log: seq<Event>, j: Job)
    requires Ledger(accepted, pending, log)
    ensures j in pending <==> j in accepted && j !in Jobs(log)
  {
    AcceptedOnce(accepted, pending, log, j);
    assert j in accepted <==> j in multiset(accepted);
    assert j in Jobs(log) <==> j in multiset(Jobs(log));
    if j in accepted {
      AcceptedCount(accepted, j.id);
    }
  }

  lemma {:induction false} LiveOne(accepted: seq<Job>, log: seq<Event>, task: TaskId)
    ensures match Live(accepted, log, task)
            case Some(j) => j in accepted && j !in Jobs(log) && j.task == task
            case None => forall j :: j in accepted && j !in Jobs(log) ==> j.task != task
  {
    if accepted != [] {
      var n := |accepted| - 1;
      LiveOne(accepted[..n], log, task);
      assert accepted == accepted[..n] + [accepted[n]];
    }
  }

  /** The scheduled tasks are those with a live scheduling, and that is the job pending. */
  lemma LiveIs(b: Books, accepted: seq<Job>, log: seq<Event>, task: TaskId)
    requires Account(b, accepted, log)
    ensures task in b.scheduled <==> Live(accepted, log, task).Some?
    ensures Live(accepted, log, task).Some? ==> Live(accepted, log, task).value in Pending(b)
    ensures forall j :: j in Pending(b) && j.task == task ==> Live(accepted, log, task) == Some(j)
  {
    hide Ledger, Jobs, Live, Listed, Pending;
    LiveOne(accepted, log, task);
    forall j
      ensures j in Pending(b) <==> j in accepted && j !in Jobs(log)
    {
      PendingIs(accepted, Pending(b), log, j);
    }
  }

  // ---------- the scheduler ----------

  /** Between two points of a run only cancel_task ran tasks, and the running list lost just those. */
  ghost predicate Cancels(log: seq<Event>, running: seq<Job>, log': seq<Event>, running': seq<Job>) {
    && log <= log'
    && (forall e :: e in log'[|log|..] ==> !e.byRun && e.status == Canceled)
    && running' == Keep(running, CancelledJobs(log'[|log|..]))
  }

  lemma CancelsNone(log: seq<Event>, running: seq<Job>)
    ensures Cancels(log, running, log, running)
  {
    assert log[|log|..] == [];
    KeepAll(running, CancelledJobs([]));
  }

  lemma CancelsTwice(log: seq<Event>, running: seq<Job>, log': seq<Event>, running': seq<Job>,
                     log'': seq<Event>, running'': seq<Job>)
    requires Cancels(log, running, log', running') && Cancels(log', running', log'', running'')
    ensures Cancels(log, running, log'', running'')
  {
    var a, b := log'[|log|..], log''[|log'|..];
    assert log''[|log|..] == a + b;
    LogAppend(a, b);
    KeepTwice(running, CancelledJobs(a), CancelledJobs(b));
  }

  class Scheduler {
    const queue: PriorityQueue<Job>
    const nodes: map<TaskId, Node>
    var asap: seq<Job>
    var timed: seq<Job>
    var running: seq<Job>
    var scheduled: set<TaskId>
    var linked: set<TaskId>
    var count: nat
    ghost var accepted: seq<Job>
    ghost var log: seq<Event>
    /** Tasks run as cancelled while they were not scheduled. */
    ghost var strays: seq<TaskId>

    ghost function View(): Books
      reads this, queue
    {
      Books(asap, timed, running, multiset(queue.container), scheduled, linked)
    }

    ghost function Past(): History
      reads this
    {
      History(accepted, log, strays, asap)
    }

    ghost predicate Wired()
      reads queue, queue.Nodes()
      ensures Wired() ==> forall n :: n in queue.Nodes() ==> n as object != this
    {
      && queue.Valid() && queue.after == Later && !queue.isStatic
      && Injective(nodes) && PairsOk(queue.Pairs(), nodes)
    }

    ghost predicate Valid()
      reads this, queue, queue.Nodes()
    {
      Wired() && scheduled <= nodes.Keys && count == |accepted| && Account(View(), accepted, log)
    }

    /** Valid, but for a job taken out of its list or heap and not yet run. */
    ghost predicate Loose(job: Job)
      reads this, queue, queue.Nodes()
    {
      Wired() && scheduled <= nodes.Keys && count == |accepted| && Out(View(), accepted, log, job)
    }

    constructor (nodes: map<TaskId, Node>)
      requires Injective(nodes)
      ensures Valid() && fresh(queue) && this.nodes == nodes
      ensures asap == timed == running == [] && queue.container == [] && Past() == History([], [], [], [])
    {
      this.nodes := nodes;
      queue := new PriorityQueue(Later, false, 0);
      asap, timed, running, scheduled, linked, count := [], [], [], {}, {}, 0;
      accepted, log, strays := [], [], [];
      new;
      hide PriorityQueue.Valid, Heap, OrderOn;
      assert Zip(queue.container, queue.backpointers) == [];
      EmptyBooks();
      assert View() == Books([], [], [], multiset{}, {}, {});
    }

    /** aws_task_scheduler_schedule_now, for a task that is not scheduled. */
    method DoScheduleNow(task: TaskId)
      requires Valid() && task in nodes && task !in scheduled
      modifies this
      ensures Valid() && running == old(running) && log == old(log) && strays == old(strays)
      ensures asap == old(asap) + [Job(task, 0, old(count))] && accepted == old(accepted) + [Job(task, 0, old(count))]
      ensures timed == old(timed) && scheduled == old(scheduled) + {task}
    {
      hide Wired, Account;
      var job := Job(task, 0, count);
      ghost var b := View();
      ScheduleAsap(b, accepted, log, job);
      asap := asap + [job];
      linked := linked + {task};
      scheduled := scheduled + {task};
      count := count + 1;
      accepted := accepted + [job];
    }

    /** The push in schedule_future, with the task's own node. */
    method Enqueue(job: Job, containerGrows: bool, backGrows: bool) returns (ok: bool)
      requires Wired() && job.task in nodes && forall j :: j in queue.container ==> j.task != job.task
      modifies queue`container, queue`backpointers, nodes.Values
      ensures Wired()
      ensures ok ==> multiset(queue.container) == old(multiset(queue.container)) + multiset{job}
      ensures !ok ==> queue.container == old(queue.container)
    {
      hide OrderOn, Heap, Zip;
      NodesWithin(queue, nodes);
      UnpairedNode(queue, nodes, job.task);
      LaterOrders(multiset(queue.container) + multiset{job});
      ok := queue.PushRef(job, nodes[job.task], containerGrows, backGrows);
    }

    /** The pop in run_all: a job of least timestamp. */
    method Dequeue() returns (job: Job)
      requires Wired() && queue.container != []
      modifies queue`container, queue`backpointers, nodes.Values
      ensures Wired()
      ensures job == old(queue.container)[0] && old(multiset(queue.container)) == multiset(queue.container) + multiset{job}
      ensures |queue.container| == |old(queue.container)| - 1
    {
      hide OrderOn, Heap, Zip;
      NodesWithin(queue, nodes);
      assert queue.container[0] in multiset(queue.container);
      var item, _ := queue.Pop();
      job := item.value;
      assert |old(multiset(queue.container))| == |multiset(queue.container)| + 1;
    }

    /** The remove in cancel_task, through the task's node. */
    method Unqueue(task: TaskId) returns (job: Job)
      requires Wired() && exists j :: j in queue.container && j.task == task
      modifies queue`container, queue`backpointers, nodes.Values
      ensures Wired()
      ensures job.task == task && old(multiset(queue.container)) == multiset(queue.container) + multiset{job}
    {
      hide OrderOn, Heap, Zip;
      NodesWithin(queue, nodes);
      ghost var j :| j in queue.container && j.task == task;
      PairedNode(queue, nodes, j);
      ghost var c, pairs := queue.container, queue.Pairs();
      var item, _ := queue.Remove(nodes[task]);
      job := item.value;
      assert job in multiset(c);
    }

    /** Sorted insertion into the overflow list. */
    method InsertTimed(job: Job)
      modifies this`timed
      ensures Placed(old(timed), job, timed)
    {
      var k := 0;
      while k < |timed| && timed[k].time <= job.time
        invariant 0 <= k <= |timed| && timed == old(timed)
        invariant forall j :: 0 <= j < k ==> timed[j].time <= job.time
      {
        k := k + 1;
      }
      timed := timed[..k] + [job] + timed[k..];
      assert InsertedAt(old(timed), job, k, timed);
    }

    /** The queue takes the job, or else it goes into the sorted overflow list. */
    method PlaceFuture(job: Job, containerGrows: bool, backGrows: bool) returns (ok: bool)
      requires Wired() && job.task in nodes && forall j :: j in queue.container ==> j.task != job.task
      modifies this`timed, queue`container, queue`backpointers, nodes.Values
      ensures Wired()
      ensures ok ==> timed == old(timed) && multiset(queue.container) == old(multiset(queue.container)) + multiset{job}
      ensures !ok ==> queue.container == old(queue.container) && Placed(old(timed), job, timed)
      ensures multiset(timed) + multiset(queue.container) == old(multiset(timed) + multiset(queue.container)) + multiset{job}
    {
      hide Wired, Placed;
      ok := Enqueue(job, containerGrows, backGrows);
      if !ok {
        InsertTimed(job);
        PlacedBag(old(timed), job, timed);
      }
    }

    /** aws_task_scheduler_schedule_future. */
    method DoScheduleFuture(task: TaskId, time: Time, containerGrows: bool, backGrows: bool)
      requires Valid() && task in nodes && task !in scheduled
      modifies this, queue, nodes.Values
      ensures Valid() && running == old(running) && log == old(log) && asap == old(asap) && strays == old(strays)
      ensures accepted == old(accepted) + [Job(task, time, old(count))] && scheduled == old(scheduled) + {task}
      ensures multiset(timed) + multiset(queue.container) ==
              old(multiset(timed) + multiset(queue.container)) + multiset{Job(task, time, old(count))}
    {
      hide Wired, Account, Placed;
      var job := Job(task, time, count);
      ghost var b := View();
      NotInHeap(b, accepted, log, task);
      var ok := PlaceFuture(job, containerGrows, backGrows);
      if ok {
        ScheduleHeap(b, accepted, log, job);
      } else {
        ScheduleTimed(b, accepted, log, job, timed);
        linked := linked + {task};
      }
      scheduled := scheduled + {task};
      count := count + 1;
      accepted := accepted + [job];
    }

    /** aws_linked_list_remove in cancel_task: from whichever list holds the task's node. */
    method TakeListed(task: TaskId) returns (job: Job)
      requires Account(View(), accepted, log) && task in linked
      modifies this`asap, this`timed, this`running, this`linked
      ensures Out(View(), accepted, log, job) && job.task == task
      ensures running == Keep(old(running), {job}) && asap == Keep(old(asap), {job})
    {
      hide Account, Out;
      ghost var b := View();
      ListedTask(b, accepted, log, task);
      var i, j, k := IndexOf(asap, task), IndexOf(timed, task), IndexOf(running, task);
      if i < |asap| {
        job := asap[i];
        NotRunning(b, accepted, log, job);
        AsapOnce(b, accepted, log, i);
        TakeFromAsap(b, accepted, log, i);
        asap := Without(asap, i);
      } else if j < |timed| {
        job := timed[j];
        NotRunning(b, accepted, log, job);
        NotAsap(b, accepted, log, job);
        TakeFromTimed(b, accepted, log, j);
        timed := Without(timed, j);
      } else {
        job := running[k];
        RunningOnce(b, accepted, log, k);
        NotAsap(b, accepted, log, job);
        TakeFromRunning(b, accepted, log, k);
        running := Without(running, k);
      }
      linked := linked - {task};
    }

    /** The removal in cancel_task: from a list if the node is linked, else from the queue. */
    method TakeTask(task: TaskId) returns (job: Job)
      requires Valid() && task in scheduled
      modifies this`asap, this`timed, this`running, this`linked, queue, nodes.Values
      ensures Loose(job) && job.task == task && log == old(log)
      ensures running == Keep(old(running), {job}) && asap == Keep(old(asap), {job})
      ensures Live(accepted, log, task) == Some(job)
    {
      hide Wired, Account, Out, Live;
      ghost var b := View();
      TakenIs(b, accepted, log);
      if task in linked {
        job := TakeListed(task);
      } else {
        QueuedTask(b, accepted, log, task);
        job := Unqueue(task);
        NotRunning(b, accepted, log, job);
        NotAsap(b, accepted, log, job);
        TakeFromHeap(b, accepted, log, job, multiset(queue.container));
      }
    }

    /** aws_task_run: the task is no longer scheduled when its function is called. */
    method Run(job: Job, status: Status, byRun: bool, callback: seq<Action>)
      requires Loose(job)
      modifies this, queue, nodes.Values
      ensures Valid() && old(accepted) <= accepted && old(strays) <= strays
      ensures Cancels(old(log) + [Event(job, status, byRun)], old(running), log, running)
      ensures Past() == Acts(nodes.Keys, old(Past()).(log := old(log) + [Event(job, status, byRun)]), callback)
      decreases callback, 1
    {
      hide Wired, Account, Out, Cancels, Acts;
      RunOut(View(), accepted, log, job, Event(job, status, byRun));
      scheduled := scheduled - {job.task};
      log := log + [Event(job, status, byRun)];
      Perform(callback);
    }

    /**
      aws_task_scheduler_cancel_task. A scheduled task, and no other, is removed and
      run as cancelled; a task that is not scheduled is run as cancelled all the same.
     */
    method DoCancel(task: TaskId, callback: seq<Action>)
      requires Valid()
      modifies this, queue, nodes.Values
      ensures Valid() && old(accepted) <= accepted && old(strays) <= strays
      ensures Cancels(old(log), old(running), log, running)
      ensures task in old(scheduled) ==> |old(log)| < |log| && log[|old(log)|].job.task == task
      ensures task !in old(scheduled) ==> |old(strays)| < |strays| && strays[|old(strays)|] == task
      ensures Past() == Act(nodes.Keys, old(Past()), Cancel(task, callback))
      decreases callback, 2
    {
      hide Wired, Account, Out, Acts, Live;
      LiveIs(View(), accepted, log, task);
      if task !in scheduled {
        strays := strays + [task];
        Perform(callback);
        return;
      }
      var job := TakeTask(task);
      ghost var e := Event(job, Canceled, false);
      CancelsOne(old(log), old(running), e);
      Run(job, Canceled, false, callback);
      CancelsTwice(old(log), old(running), old(log) + [e], Keep(old(running), {job}), log, running);
    }

    /** What a callback does. It schedules only unscheduled tasks. */
    method Perform(actions: seq<Action>)
      requires Valid()
      modifies this, queue, nodes.Values
      ensures Valid() && old(accepted) <= accepted && old(strays) <= strays
      ensures Cancels(old(log), old(running), log, running)
      ensures Past() == Acts(nodes.Keys, old(Past()), actions)
      decreases actions, 0
    {
      hide Wired, Account, Out, Cancels, Live, Acts;
      CancelsNone(log, running);
      ActsNone(nodes.Keys, Past());
      assert actions[..0] == [];
      for i := 0 to |actions|
        invariant Valid() && old(accepted) <= accepted && old(strays) <= strays
        invariant Cancels(old(log), old(running), log, running)
        invariant Past() == Acts(nodes.Keys, old(Past()), actions[..i])
      {
        ActsNext(nodes.Keys, old(Past()), actions, i);
        LiveIs(View(), accepted, log, actions[i].task);
        ghost var log0, running0 := log, running;
        match actions[i]
        case ScheduleNow(task) =>
          if task in nodes && task !in scheduled {
            DoScheduleNow(task);
          }
        case ScheduleFuture(task, time, containerGrows, backGrows) =>
          if task in nodes && task !in scheduled {
            DoScheduleFuture(task, time, containerGrows, backGrows);
          }
        case Cancel(task, callback) =>
          DoCancel(task, callback);
          CancelsTwice(old(log), old(running), log0, running0, log, running);
      }
      assert actions[..|actions|] == actions;
    }

    /** run_all takes the queue's top for the running list. */
    method MoveTop() returns (job: Job)
      requires Valid() && queue.container != []
      modifies this`running, this`linked, queue, nodes.Values
      ensures Valid() && job == old(queue.container)[0] && running == old(running) + [job]
      ensures old(multiset(queue.container)) == multiset(queue.container) + multiset{job}
      ensures |queue.container| == |old(queue.container)| - 1
    {
      hide Wired, Account;
      ghost var b := View();
      job := Dequeue();
      LinkTop(b, accepted, log, job, multiset(queue.container));
      running := running + [job];
      linked := linked + {job.task};
    }

    /** run_all takes the front of the overflow list for the running list. */
    method MoveFront() returns (job: Job)
      requires Valid() && timed != []
      modifies this`running, this`timed
      ensures Valid() && job == old(timed)[0] && running == old(running) + [job] && timed == old(timed)[1..]
    {
      hide Wired, Account;
      RelinkFront(View(), accepted, log);
      job := timed[0];
      timed := timed[1..];
      running := running + [job];
    }

    /** The first loop of s_run_all: jobs of the overflow list and the queue, whichever is sooner. */
    method MoveTimed(now: Time, ghost start: multiset<Job>) returns (ghost due: seq<Job>)
      requires Valid() && start == multiset(timed) + multiset(queue.container)
      modifies this`timed, this`running, this`linked, queue, nodes.Values
      ensures Valid() && running == old(running) + due
      ensures Merged(start, due, multiset(timed) + multiset(queue.container), now)
      ensures forall j :: j in timed ==> j.time > now
    {
      hide PriorityQueue.Valid, PairsOk, Injective, Account, Merged, Sorted;
      due := [];
      MergeNone(start, now);
      while timed != []
        invariant Valid() && running == old(running) + due
        invariant Merged(start, due, multiset(timed) + multiset(queue.container), now)
        decreases |timed| + |queue.container|
      {
        TimedSorted(View(), accepted, log);
        ghost var timed0, heap0 := timed, queue.container;
        if timed[0].time > now {
          break;
        }
        var top := queue.Top();
        if top.Some? && top.value.time <= now && top.value.time < timed[0].time {
          var job := MoveTop();
          MergeTop(start, due, timed, heap0, multiset(queue.container), job, now);
          due := due + [job];
        } else {
          var job := MoveFront();
          MergeFront(start, due, timed0, queue.container, now);
          due := due + [job];
        }
      }
    }

    /** The second loop of s_run_all: what else is due in the queue. */
    method MoveQueued(now: Time, ghost start: multiset<Job>, ghost due0: seq<Job>) returns (ghost due: seq<Job>)
      requires Valid() && Merged(start, due0, multiset(timed) + multiset(queue.container), now)
      requires forall j :: j in timed ==> j.time > now
      modifies this`running, this`linked, queue, nodes.Values
      ensures Valid() && due0 <= due && running == old(running) + due[|due0|..]
      ensures Merged(start, due, multiset(timed) + multiset(queue.container), now)
      ensures forall j :: j in queue.container ==> j.time > now
    {
      hide PriorityQueue.Valid, PairsOk, Injective, Account, Merged;
      due := due0;
      while true
        invariant Valid() && due0 <= due && running == old(running) + due[|due0|..]
        invariant Merged(start, due, multiset(timed) + multiset(queue.container), now)
        decreases |queue.container|
      {
        ghost var heap0 := queue.container;
        var top := queue.Top();
        if top.None? || top.value.time > now {
          break;
        }
        var job := MoveTop();
        MergeTop(start, due, timed, heap0, multiset(queue.container), job, now);
        due := due + [job];
      }
    }

    /** The first half of s_run_all: everything asap, then everything due, moves to the running list. */
    method MoveDue(now: Time) returns (ghost due: seq<Job>)
      requires Valid() && running == []
      modifies this`asap, this`timed, this`running, this`linked, queue, nodes.Values
      ensures Valid() && asap == [] && running == old(asap) + due
      ensures Merged(old(multiset(timed) + multiset(queue.container)), due,
                     multiset(timed) + multiset(queue.container), now)
      ensures forall j :: j in multiset(timed) + multiset(queue.container) ==> j.time > now
    {
      hide Wired, Account, Merged;
      ghost var start := multiset(timed) + multiset(queue.container);
      SwapAsap(View(), accepted, log);
      running, asap := asap, [];
      ghost var part := MoveTimed(now, start);
      due := MoveQueued(now, start, part);
      assert due == part + due[|part|..];
      assert forall j :: j in multiset(queue.container) ==> j in queue.container;
      assert forall j :: j in multiset(timed) ==> j in timed;
    }

    /** The pop in the run loop. */
    method PopRunning() returns (job: Job)
      requires Valid() && running != []
      modifies this`running, this`linked
      ensures Loose(job) && job == old(running)[0] && running == old(running)[1..]
    {
      hide Wired, Account, Out;
      TakeFromRunning(View(), accepted, log, 0);
      assert Without(running, 0) == running[1..];
      job := running[0];
      linked := linked - {job.task};
      running := running[1..];
    }

    /**
      s_run_all. `due` is what the overflow list and the heap held that was due; behave(k) is what the k-th
      task run here does. Exactly the asap jobs and then the due ones are run, but for those a callback cancelled first.
     */
    method RunAll(now: Time, status: Status, behave: nat -> seq<Action>)
      returns (ghost due: seq<Job>, ghost rest: multiset<Job>, turns: nat)
      requires Valid() && running == []
      modifies this, queue, nodes.Values
      ensures Valid() && running == [] && old(accepted) <= accepted && old(log) <= log
      ensures Merged(old(multiset(timed) + multiset(queue.container)), due, rest, now)
      ensures forall j :: j in rest ==> j.time > now
      ensures RunJobs(log[|old(log)|..]) == Keep(old(asap) + due, CancelledJobs(log[|old(log)|..]))
      ensures forall e :: e in log[|old(log)|..] ==> e.status == if e.byRun then status else Canceled
      ensures now == UINT64_MAX && accepted == old(accepted) ==> asap == [] && timed == [] && queue.container == []
      ensures Turns(nodes.Keys, old(Past()).(asap := []), old(asap) + due, status, behave, turns) == (Past(), [])
    {
      hide Wired, Account, Out, Cancels, Merged, Progress, Ledger, Pending, Turn, Turns, Keep;
      LedgerOf(View(), accepted, log);
      ghost var before := View();
      due := MoveDue(now);
      rest := multiset(timed) + multiset(queue.container);
      ghost var all := running;
      turns := 0;
      RunStart(log, all, status);
      ghost var start := Past();
      NoTurns(nodes.Keys, start, all, status, behave);
      while running != []
        invariant Valid() && old(accepted) <= accepted
        invariant Progress(old(log), all, log, running, status)
        invariant Turns(nodes.Keys, start, all, status, behave, turns) == (Past(), running)
        decreases |running|
      {
        ghost var past0, b := Past(), View();
        var job := PopRunning();
        Run(job, status, true, behave(turns));
        LedgerOf(View(), accepted, log);
        RunStep(old(log), all, past0.log, b.running, status, accepted, Pending(View()), log, running);
        OneTurn(nodes.Keys, start, all, status, behave, turns, past0, b, Past(), View());
        turns := turns + 1;
      }
      RunEnd(old(log), all, log, status);
      if now == UINT64_MAX && accepted == old(accepted) {
        DueIsAll(before, due, rest, now);
        NothingLeft(accepted, Pending(before), old(log), View(), log, all);
      }
    }

    /** aws_task_scheduler_has_tasks: the time of the next task, 0 when one is to run now. */
    method HasTasks() returns (has: bool, next: Time)
      requires Valid()
      ensures has <==> asap != [] || timed != [] || queue.container != []
      ensures asap != [] ==> next == 0
      ensures asap == [] ==> forall j :: j in timed || j in queue.container ==> next <= j.time
      ensures asap == [] && has ==> exists j :: (j in timed || j in queue.container) && next == j.time
    {
      hide PriorityQueue.Valid, PairsOk, Injective, Account;
      next, has := UINT64_MAX, false;
      if asap != [] {
        return true, 0;
      }
      TimedSorted(View(), accepted, log);
      if timed != [] {
        next, has := timed[0].time, true;
        assert timed[0] in timed;
      }
      var top := queue.Top();
      if top.Some? {
        assert top.value in queue.container;
        if top.value.time < next {
          next := top.value.time;
        }
        has := true;
      }
    }

    /**
      aws_task_scheduler_clean_up, for up to the given rounds of cancelled runs. marks[k] is how many
      schedulings were accepted before round k. Each round but the last has one accepted in it, and the
      last too unless it finishes, so clean-up ends once callbacks stop scheduling.
     */
    method CleanUp(rounds: seq<nat -> seq<Action>>) returns (finished: bool, ghost marks: seq<nat>)
      requires Valid() && running == []
      modifies this, queue, nodes.Values
      ensures Valid() && running == []
      ensures finished <==> asap == [] && timed == [] && queue.container == []
      ensures finished ==> multiset(accepted) == multiset(Jobs(log))
      ensures old(log) <= log && AllCancelled(log[|old(log)|..])
      ensures 1 <= |marks| <= |rounds| + 1 && marks[0] == |old(accepted)| && marks[|marks| - 1] == |accepted|
      ensures !finished ==> |marks| == |rounds| + 1
      ensures forall k :: 0 <= k < |marks| - (if finished then 2 else 1) ==> marks[k] < marks[k + 1]
    {
      hide Wired, Account, Merged, Keep, RunJobs, CancelledJobs, Turns, Past, AllCancelled;
      var k := 0;
      marks := [|accepted|];
      NoneLogged(log);
      var has, next := HasTasks();
      while has && k < |rounds|
        invariant Valid() && running == []
        invariant k <= |rounds| && (!has <==> asap == [] && timed == [] && queue.container == [])
        invariant |marks| == k + 1 && marks[0] == |old(accepted)| && marks[k] == |accepted|
        invariant old(log) <= log && AllCancelled(log[|old(log)|..])
        invariant forall j :: 0 <= j < (if has then k else k - 1) ==> marks[j] < marks[j + 1]
        decreases |rounds| - k
      {
        ghost var known, before := accepted, log;
        var _, _, _ := RunAll(UINT64_MAX, Canceled, rounds[k]);
        assert |accepted| == |known| ==> accepted == known;
        MoreCancelled(old(log), before, log);
        marks := marks + [|accepted|];
        has, next := HasTasks();
        k := k + 1;
      }
      finished := !has;
      if finished {
        AllRun(View(), accepted, log);
      }
    }
  }

  lemma ActsNone(known: set<TaskId>, h: History)
    ensures Acts(known, h, []) == h
  {
  }

  lemma ActsNext(known: set<TaskId>, h: History, actions: seq<Action>, i: nat)
    requires i < |actions|
    ensures Acts(known, h, actions[..i + 1]) == Act(known, Acts(known, h, actions[..i]), actions[i])
  {
    assert actions[..i + 1][..i] == actions[..i];
  }

  lemma NoTurns(known: set<TaskId>, h: History, running: seq<Job>, status: Status, behave: nat -> seq<Action>)
    ensures Turns(known, h, running, status, behave, 0) == (h, running)
  {
  }

  /** A job taken out for a task is the task's live scheduling. */
  lemma TakenIs(b: Books, accepted: seq<Job>, log: seq<Event>)
    requires Account(b, accepted, log)
    ensures forall b', job :: Out(b', accepted, log, job) ==> Live(accepted, log, job.task) == Some(job)
  {
    hide Account, Live, Jobs, BooksOk, Ledger, Pending;
    forall b', job | Out(b', accepted, log, job)
      ensures Live(accepted, log, job.task) == Some(job)
    {
      LedgerOf(b, accepted, log);
      PendingIs(accepted, Pending(b') + multiset{job}, log, job);
      PendingIs(accepted, Pending(b), log, job);
      LiveIs(b, accepted, log, job.task);
    }
  }

  /** The running list after a turn of the loop, in terms of the log alone. */
  lemma OneTurn(known: set<TaskId>, start: History, all: seq<Job>, status: Status, behave: nat -> seq<Action>, k: nat,
                h: History, b: Books, h': History, b': Books)
    requires Turns(known, start, all, status, behave, k) == (h, b.running) && b.running != []
    requires Account(b, h.accepted, h.log)
    requires h' == Acts(known, h.(log := h.log + [Event(b.running[0], status, true)]), behave(k))
    requires Cancels(h.log + [Event(b.running[0], status, true)], b.running[1..], h'.log, b'.running)
    ensures Turns(known, start, all, status, behave, k + 1) == (h', b'.running)
  {
    hide Acts, Account, Keep, CancelledJobs;
    var e := Event(b.running[0], status, true);
    var more := h'.log[|h.log| + 1..];
    assert h'.log == (h.log + [e]) + more;
    forall j | j in b.running[1..]
      ensures j in CancelledJobs(more) <==> j in Logged(h'.log)
    {
      StillRunning(b, h.accepted, h.log, e, more, j);
    }
    KeepSame(b.running[1..], CancelledJobs(more), Logged(h'.log));
  }

  lemma {:induction false} KeepSame(s: seq<Job>, a: set<Job>, b: set<Job>)
    requires forall j :: j in s ==> (j in a <==> j in b)
    ensures Keep(s, a) == Keep(s, b)
  {
    if s != [] {
      KeepSame(s[1..], a, b);
    }
  }

  /** A job behind the first has not been run; if it is in the log later, a callback cancelled it. */
  lemma StillRunning(b: Books, accepted: seq<Job>, log: seq<Event>, e: Event, more: seq<Event>, j: Job)
    requires Account(b, accepted, log) && b.running != [] && e.job == b.running[0] && j in b.running[1..]
    requires forall x :: x in more ==> !x.byRun
    ensures j in CancelledJobs(more) <==> j in Logged((log + [e]) + more)
  {
    hide Ledger, CancelledJobs, Jobs, RunJobs;
    LaterRunning(b, j);
    PendingIs(accepted, Pending(b), log, j);
    LogAppend(log, [e]);
    LogOne(e);
    LogAppend(log + [e], more);
    JobsOfCancels(more);
  }

  lemma LaterRunning(b: Books, j: Job)
    requires Apart(Pending(b)) && b.running != [] && j in b.running[1..]
    ensures j in Pending(b) && j != b.running[0]
  {
    var r := b.running;
    assert r == [r[0]] + r[1..];
    assert multiset(r) == multiset{r[0]} + multiset(r[1..]);
    assert j in multiset(r[1..]);
    assert j == r[0] ==> multiset(r)[j] >= 2;
    assert Pending(b)[j] >= multiset(r)[j];
  }

  ghost predicate AllCancelled(log: seq<Event>) {
    forall e :: e in log ==> e.status == Canceled
  }

  lemma NoneLogged(log: seq<Event>)
    ensures AllCancelled(log[|log|..])
  {
  }

  lemma MoreCancelled(a: seq<Event>, b: seq<Event>, c: seq<Event>)
    requires a <= b <= c && AllCancelled(b[|a|..])
    requires forall e :: e in c[|b|..] ==> e.status == if e.byRun then Canceled else Canceled
    ensures AllCancelled(c[|a|..])
  {
    assert c[|a|..] == b[|a|..] + c[|b|..];
  }

  /** Up to the end of time, everything pending is asap or due. */
  lemma DueIsAll(b: Books, due: seq<Job>, rest: multiset<Job>, now: Time)
    requires b.running == [] && Merged(multiset(b.timed) + b.heap, due, rest, now) && (forall j :: j in rest ==> j.time > now)
    requires now == UINT64_MAX
    ensures multiset(b.asap + due) == Pending(b)
  {
    assert rest == multiset{} by {
      assert forall j :: j !in rest;
    }
    assert multiset(b.asap + due) == multiset(b.asap) + multiset(due);
    assert multiset(due) == multiset(b.timed) + b.heap;
    assert multiset(b.running) == multiset{};
  }

  lemma {:induction false} KeepMembers(s: seq<Job>, gone: set<Job>, j: Job)
    requires j in s
    ensures j in Keep(s, gone) || j in gone
  {
    if j != s[0] {
      KeepMembers(s[1..], gone, j);
    }
  }

  lemma CancelledLogged(log: seq<Event>, j: Job)
    requires j in CancelledJobs(log)
    ensures j in Jobs(log)
  {
    var e :| e in log && !e.byRun && e.job == j;
    var i :| 0 <= i < |log| && log[i] == e;
    assert Jobs(log)[i] == j;
  }

  /** If everything pending was run or cancelled, every job accepted before has been run. */
  lemma NowLogged(accepted: seq<Job>, pending0: multiset<Job>, log0: seq<Event>, log: seq<Event>, all: seq<Job>, j: Job)
    requires Ledger(accepted, pending0, log0) && log0 <= log && multiset(all) == pending0 && j in accepted
    requires RunJobs(log[|log0|..]) == Keep(all, CancelledJobs(log[|log0|..]))
    ensures j in Jobs(log)
  {
    var new_ := log[|log0|..];
    assert log == log0 + new_;
    LogAppend(log0, new_);
    assert j in multiset(accepted);
    assert j in multiset(Jobs(log0)) <==> j in Jobs(log0);
    hide CancelledJobs, RunJobs, Keep, Jobs;
    if j !in Jobs(log0) {
      assert j in multiset(all);
      KeepMembers(all, CancelledJobs(new_), j);
      RunJobsLogged(new_);
      if j in CancelledJobs(new_) {
        CancelledLogged(new_, j);
      }
    }
  }

  /** If moreover nothing was accepted since, nothing is pending. */
  lemma NothingLeft(accepted: seq<Job>, pending0: multiset<Job>, log0: seq<Event>, b: Books, log: seq<Event>, all: seq<Job>)
    requires Ledger(accepted, pending0, log0) && Account(b, accepted, log) && log0 <= log && multiset(all) == pending0
    requires RunJobs(log[|log0|..]) == Keep(all, CancelledJobs(log[|log0|..]))
    ensures b.asap == [] && b.timed == [] && b.heap == multiset{}
  {
    forall j
      ensures j !in Pending(b)
    {
      AcceptedOnce(accepted, Pending(b), log, j);
      assert j in Pending(b) ==> j in multiset(accepted);
      if j in accepted {
        NowLogged(accepted, pending0, log0, log, all, j);
        assert j in multiset(Jobs(log));
      }
    }
    hide Ledger, RunJobs, Keep, CancelledJobs;
    assert Pending(b) == multiset{};
    assert |multiset(b.asap)| == 0 && |multiset(b.timed)| == 0;
  }

  lemma AllRun(b: Books, accepted: seq<Job>, log: seq<Event>)
    requires Account(b, accepted, log) && b.asap == b.timed == b.running == [] && b.heap == multiset{}
    ensures multiset(accepted) == multiset(Jobs(log))
  {
    assert Pending(b) == multiset{};
  }

  /** In the run loop: the tasks run so far, followed by those left, are all that were to be run less the cancelled ones. */
  ghost predicate Progress(start: seq<Event>, all: seq<Job>, log: seq<Event>, running: seq<Job>, status: Status) {
    && start <= log
    && RunJobs(log[|start|..]) + running == Keep(all, CancelledJobs(log[|start|..]))
    && (forall e :: e in log[|start|..] ==> e.status == if e.byRun then status else Canceled)
  }

  lemma RunStart(log: seq<Event>, all: seq<Job>, status: Status)
    ensures Progress(log, all, log, all, status)
  {
    assert log[|log|..] == [] && CancelledJobs([]) == {};
    KeepAll(all, {});
    assert RunJobs([]) + all == all;
  }

  lemma RunEnd(start: seq<Event>, all: seq<Job>, log: seq<Event>, status: Status)
    requires Progress(start, all, log, [], status)
    ensures start <= log && RunJobs(log[|start|..]) == Keep(all, CancelledJobs(log[|start|..]))
    ensures forall e :: e in log[|start|..] ==> e.status == if e.byRun then status else Canceled
  {
  }

  /** A job run earlier is not among those run later. */
  lemma RunApart(accepted: seq<Job>, pending: multiset<Job>, log: seq<Event>, k: nat, job: Job)
    requires Ledger(accepted, pending, log) && k <= |log| && job in Jobs(log[..k])
    ensures job !in CancelledJobs(log[k..])
  {
    var a, b := log[..k], log[k..];
    assert log == a + b;
    LogAppend(a, b);
    AcceptedOnce(accepted, pending, log, job);
    assert job in multiset(Jobs(a));
    assert job !in multiset(Jobs(b));
    forall e | e in b
      ensures e.job != job
    {
      var i :| 0 <= i < |b| && b[i] == e;
      assert Jobs(b)[i] in multiset(Jobs(b));
    }
  }

  lemma {:induction false} RunJobsLogged(log: seq<Event>)
    ensures forall j :: j in RunJobs(log) ==> j in Jobs(log)
  {
    if log != [] {
      RunJobsLogged(log[1..]);
      assert Jobs(log) == [log[0].job] + Jobs(log[1..]);
    }
  }

  lemma {:induction false} KeepShrinks(s: seq<Job>, gone: set<Job>)
    ensures |Keep(s, gone)| <= |s|
  {
    if s != [] {
      KeepShrinks(s[1..], gone);
    }
  }

  /** The log since the start: what was there, one run, and what its callback cancelled. */
  lemma NewEvents(start: seq<Event>, log: seq<Event>, e: Event, log': seq<Event>)
    requires start <= log && log + [e] <= log'
    ensures |log| < |log'| && log'[|start|..] == log[|start|..] + [e] + log'[|log| + 1..]
  {
    assert log' == (log + [e]) + log'[|log| + 1..];
  }

  lemma EventJobs(new_: seq<Event>, e: Event, more: seq<Event>)
    requires e.byRun && forall x :: x in more ==> !x.byRun
    ensures RunJobs(new_ + [e] + more) == RunJobs(new_) + [e.job]
    ensures CancelledJobs(new_ + [e] + more) == CancelledJobs(new_) + CancelledJobs(more)
  {
    hide RunJobs, CancelledJobs;
    LogAppend(new_, [e]);
    LogOne(e);
    LogAppend(new_ + [e], more);
    JobsOfCancels(more);
  }

  /** One turn of the run loop. */
  lemma RunStep(start: seq<Event>, all: seq<Job>, log: seq<Event>, running: seq<Job>, status: Status,
                accepted: seq<Job>, pending: multiset<Job>, log': seq<Event>, running': seq<Job>)
    requires Progress(start, all, log, running, status) && running != []
    requires Cancels(log + [Event(running[0], status, true)], running[1..], log', running')
    requires Ledger(accepted, pending, log')
    ensures Progress(start, all, log', running', status) && |running'| < |running|
  {
    hide RunJobs, CancelledJobs, Keep, Ledger;
    var e := Event(running[0], status, true);
    var new_, more := log[|start|..], log'[|log| + 1..];
    NewEvents(start, log, e, log');
    EventJobs(new_, e, more);
    RunTail(start, all, log, running, e, accepted, pending, log');
    KeepShrinks(running[1..], CancelledJobs(more));
  }

  /** A job already run is not among those cancelled later. */
  lemma RunNotCancelled(start: seq<Event>, log: seq<Event>, e: Event, accepted: seq<Job>, pending: multiset<Job>,
                        log': seq<Event>, j: Job)
    requires start <= log && log + [e] <= log' && Ledger(accepted, pending, log')
    requires j in RunJobs(log[|start|..]) + [e.job]
    ensures j !in CancelledJobs(log'[|log| + 1..])
  {
    hide Ledger, CancelledJobs, RunJobs, Jobs;
    var new_ := log[|start|..];
    RunJobsLogged(new_);
    assert log == start + new_;
    assert log'[..|log| + 1] == log + [e];
    LogAppend(log, [e]);
    LogAppend(start, new_);
    LogOne(e);
    RunApart(accepted, pending, log', |log| + 1, j);
  }

  /** What is run before later cancellations is not undone by them. */
  lemma RunTail(start: seq<Event>, all: seq<Job>, log: seq<Event>, running: seq<Job>, e: Event,
                accepted: seq<Job>, pending: multiset<Job>, log': seq<Event>)
    requires start <= log && running != [] && e.job == running[0] && log + [e] <= log'
    requires RunJobs(log[|start|..]) + running == Keep(all, CancelledJobs(log[|start|..]))
    requires Ledger(accepted, pending, log')
    ensures var new_, gone := log[|start|..], CancelledJobs(log'[|log| + 1..]);
      (RunJobs(new_) + [running[0]]) + Keep(running[1..], gone) == Keep(all, CancelledJobs(new_) + gone)
  {
    hide Ledger, CancelledJobs, RunJobs, Keep;
    var new_, gone := log[|start|..], CancelledJobs(log'[|log| + 1..]);
    var done, tail := RunJobs(new_) + [running[0]], running[1..];
    assert RunJobs(new_) + running == done + tail;
    forall j | j in done
      ensures j !in gone
    {
      RunNotCancelled(start, log, e, accepted, pending, log', j);
    }
    KeepAll(done, gone);
    KeepAppend(done, tail, gone);
    KeepTwice(all, CancelledJobs(new_), gone);
  }

  /** What run_all has moved so far, in order, against what is left in the overflow list and the heap. */
  ghost predicate Merged(start: multiset<Job>, due: seq<Job>, rest: multiset<Job>, now: Time) {
    && multiset(due) + rest == start
    && Sorted(due)
    && (forall j :: j in due ==> j.time <= now)
    && (forall d, r :: d in due && r in rest ==> d.time <= r.time)
  }

  lemma MergeNone(start: multiset<Job>, now: Time)
    ensures Merged(start, [], start, now)
  {
  }

  lemma MergeOne(start: multiset<Job>, due: seq<Job>, rest: multiset<Job>, rest': multiset<Job>, job: Job, now: Time)
    requires Merged(start, due, rest, now) && rest == rest' + multiset{job} && job.time <= now
    requires forall r :: r in rest' ==> job.time <= r.time
    ensures Merged(start, due + [job], rest', now)
  {
    var due' := due + [job];
    assert job in rest;
    assert forall r :: r in rest' ==> r in rest;
    assert forall d :: d in due' <==> d in due || d == job;
    assert multiset(due') == multiset(due) + multiset{job};
    assert multiset(due') + rest' == multiset(due) + rest;
    forall i | 0 <= i < |due|
      ensures due'[i].time <= job.time
    {
      assert due[i] in due;
    }
  }

  lemma MergeTop(start: multiset<Job>, due: seq<Job>, timed: seq<Job>, heap: seq<Job>, heap': multiset<Job>,
                 job: Job, now: Time)
    requires Merged(start, due, multiset(timed) + multiset(heap), now)
    requires multiset(heap) == heap' + multiset{job} && job.time <= now
    requires forall r :: r in heap ==> job.time <= r.time
    requires forall r :: r in timed ==> job.time <= r.time
    ensures Merged(start, due + [job], multiset(timed) + heap', now)
  {
    hide Merged;
    assert forall r :: r in multiset(timed) + heap' ==> r in timed || r in heap by {
      assert forall r :: r in heap' ==> r in multiset(heap);
      assert forall r :: r in multiset(heap) ==> r in heap;
      assert forall r :: r in multiset(timed) ==> r in timed;
    }
    MergeOne(start, due, multiset(timed) + multiset(heap), multiset(timed) + heap', job, now);
  }

  lemma MergeFront(start: multiset<Job>, due: seq<Job>, timed: seq<Job>, heap: seq<Job>, now: Time)
    requires Merged(start, due, multiset(timed) + multiset(heap), now)
    requires timed != [] && timed[0].time <= now && Sorted(timed)
    requires forall r :: r in heap ==> timed[0].time <= r.time
    ensures Merged(start, due + [timed[0]], multiset(timed[1..]) + multiset(heap), now)
  {
    hide Merged;
    assert timed == [timed[0]] + timed[1..];
    assert multiset(timed) == multiset{timed[0]} + multiset(timed[1..]);
    forall r | r in multiset(timed[1..]) + multiset(heap)
      ensures timed[0].time <= r.time
    {
      assert r in timed[1..] || r in heap by {
        assert r in multiset(timed[1..]) || r in multiset(heap);
      }
    }
    MergeOne(start, due, multiset(timed) + multiset(heap), multiset(timed[1..]) + multiset(heap), timed[0], now);
  }

  lemma LinkTop(b: Books, accepted: seq<Job>, log: seq<Event>, job: Job, heap: multiset<Job>)
    requires Account(b, accepted, log) && b.heap == heap + multiset{job}
    ensures Account(b.(heap := heap, running := b.running + [job], linked := b.linked + {job.task}), accepted, log)
  {
    var b' := b.(heap := heap, running := b.running + [job], linked := b.linked + {job.task});
    assert multiset(b'.running) == multiset(b.running) + multiset{job};
    assert Listed(b') == Listed(b) + multiset{job} && Pending(b') == Pending(b);
    LinkJob(b, b', job);
  }

  /** Moving the front of the timed list to the running list keeps the listed jobs. */
  lemma MoveListed(b: Books)
    requires b.timed != []
    ensures var b' := b.(timed := b.timed[1..], running := b.running + [b.timed[0]]);
            Listed(b') == Listed(b) && Pending(b') == Pending(b)
  {
    assert b.timed == [b.timed[0]] + b.timed[1..];
    assert multiset(b.timed) == multiset{b.timed[0]} + multiset(b.timed[1..]);
    assert multiset(b.running + [b.timed[0]]) == multiset(b.running) + multiset{b.timed[0]};
  }

  lemma RelinkFront(b: Books, accepted: seq<Job>, log: seq<Event>)
    requires Account(b, accepted, log) && b.timed != []
    ensures Account(b.(timed := b.timed[1..], running := b.running + [b.timed[0]]), accepted, log)
  {
    var b' := b.(timed := b.timed[1..], running := b.running + [b.timed[0]]);
    MoveListed(b);
    SortedOf(b);
    assert Sorted(b'.timed);
    hide BooksOk, Listed, Pending, Ledger;
    RelinkJob(b, b');
  }

  lemma SwapAsap(b: Books, accepted: seq<Job>, log: seq<Event>)
    requires Account(b, accepted, log) && b.running == []
    ensures Account(b.(asap := [], running := b.asap), accepted, log)
  {
    var b' := b.(asap := [], running := b.asap);
    assert Listed(b') == Listed(b) && Pending(b') == Pending(b);
    SortedOf(b);
    RelinkJob(b, b');
  }

  lemma LedgerOf(b: Books, accepted: seq<Job>, log: seq<Event>)
    requires Account(b, accepted, log)
    ensures Ledger(accepted, Pending(b), log)
  {
  }

  lemma TimedSorted(b: Books, accepted: seq<Job>, log: seq<Event>)
    requires Account(b, accepted, log)
    ensures Sorted(b.timed)
    ensures b.timed != [] ==> forall j :: j in b.timed ==> b.timed[0].time <= j.time
  {
    SortedOf(b);
  }

  lemma CancelsOne(log: seq<Event>, running: seq<Job>, e: Event)
    requires !e.byRun && e.status == Canceled
    ensures Cancels(log, running, log + [e], Keep(running, {e.job}))
  {
    assert (log + [e])[|log|..] == [e];
    LogOne(e);
  }

  lemma ListedTask(b: Books, accepted: seq<Job>, log: seq<Event>, task: TaskId)
    requires Account(b, accepted, log) && task in b.linked
    ensures IndexOf(b.asap, task) < |b.asap| || IndexOf(b.timed, task) < |b.timed|
            || IndexOf(b.running, task) < |b.running|
  {
    InList(b, task);
  }

  lemma QueuedTask(b: Books, accepted: seq<Job>, log: seq<Event>, task: TaskId)
    requires Account(b, accepted, log) && task in b.scheduled && task !in b.linked
    ensures exists j :: j in b.heap && j.task == task
  {
    var j := InHeap(b, task);
  }

  /** A job held elsewhere is not in the running list. */
  lemma NotRunning(b: Books, accepted: seq<Job>, log: seq<Event>, job: Job)
    requires Account(b, accepted, log) && (job in b.asap || job in b.timed || job in b.heap)
    ensures Keep(b.running, {job}) == b.running
  {
    assert job in multiset(b.asap) || job in multiset(b.timed) || job in b.heap;
    assert job in Pending(b);
    assert job !in multiset(b.running);
    KeepAll(b.running, {job});
  }

  lemma AsapOnce(b: Books, accepted: seq<Job>, log: seq<Event>, i: nat)
    requires Account(b, accepted, log) && i < |b.asap|
    ensures Keep(b.asap, {b.asap[i]}) == Without(b.asap, i)
  {
    assert b.asap[i] in multiset(b.asap) && b.asap[i] in Pending(b);
    NowhereElse(b.asap, i);
    KeepOne(b.asap, i);
  }

  lemma NotAsap(b: Books, accepted: seq<Job>, log: seq<Event>, job: Job)
    requires Account(b, accepted, log) && (job in b.timed || job in b.running || job in b.heap)
    ensures Keep(b.asap, {job}) == b.asap
  {
    assert job in multiset(b.timed) || job in multiset(b.running) || job in b.heap;
    assert job in Pending(b);
    assert job !in multiset(b.asap);
    KeepAll(b.asap, {job});
  }

  lemma RunningOnce(b: Books, accepted: seq<Job>, log: seq<Event>, i: nat)
    requires Account(b, accepted, log) && i < |b.running|
    ensures Keep(b.running, {b.running[i]}) == Without(b.running, i)
  {
    assert b.running[i] in multiset(b.running) && b.running[i] in Pending(b);
    NowhereElse(b.running, i);
    KeepOne(b.running, i);
  }

  lemma NotInHeap(b: Books, accepted: seq<Job>, log: seq<Event>, task: TaskId)
    requires Account(b, accepted, log) && task !in b.scheduled
    ensures forall j :: j in b.heap ==> j.task != task
  {
    forall j | j in b.heap
      ensures j.task in b.scheduled
    {
      assert j in Pending(b);
    }
  }

  lemma EmptyBooks()
    ensures Account(Books([], [], [], multiset{}, {}, {}), [], [])
  {
    assert Pending(Books([], [], [], multiset{}, {}, {})) == multiset{};
    assert Tasks(multiset{}) == {};
  }

  lemma Accept(accepted: seq<Job>, pending: multiset<Job>, log: seq<Event>, job: Job)
    requires Ledger(accepted, pending, log) && job.id == |accepted|
    ensures Ledger(accepted + [job], pending + multiset{job}, log)
  {
    assert multiset(accepted + [job]) == multiset(accepted) + multiset{job};
  }

  lemma SortedOf(b: Books)
    requires BooksOk(b)
    ensures Sorted(b.timed)
  {
  }
}
