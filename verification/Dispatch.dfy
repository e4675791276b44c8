/** The dispatch queue: tasks for now and tasks for later, taken by worker threads. Each critical
    section is one step. */
module Dispatch {
  import opened Common

  /** Submitted tasks are numbered; a task for later has a point in time. */
  datatype Task = Task(id: nat, timed: bool, deadline: int)

  /** What the lock protects. */
  datatype Queue = Queue(q: seq<Task>, pq: seq<Task>, quit: bool)

  /** The top of the heap: a waiting task with no earlier point in time waiting. */
  predicate IsTop(pq: seq<Task>, k: nat)
  {
    k < |pq| && forall j :: 0 <= j < |pq| ==> pq[k].deadline <= pq[j].deadline
  }

  // --- runs ---

  datatype Running = Running(worker: nat, task: Task)

  /** A task that has been started: when, and how many tasks had been submitted by then. */
  datatype Started = Started(task: Task, time: int, known: nat)

  datatype Event =
    | Submit(task: Task)
    | StartTimed(worker: nat, k: nat, now: int)
    | StartImmediate(worker: nat, now: int)
    | Finish(r: nat)
    | Quit

  datatype State = State(queue: Queue, running: seq<Running>, done: seq<Task>, submitted: seq<Task>,
                         started: seq<Started>, clock: int)

  const INITIAL: State := State(Queue([], [], false), [], [], [], [], 0)

  predicate Idle(s: State, worker: nat)
  {
    forall r :: 0 <= r < |s.running| ==> s.running[r].worker != worker
  }

  predicate Enabled(s: State, e: Event)
  {
    match e
    case Submit(task) => task.id == |s.submitted|
    case StartTimed(w, k, now) =>
      !s.queue.quit && Idle(s, w) && s.clock <= now && IsTop(s.queue.pq, k) && s.queue.pq[k].deadline < now
    case StartImmediate(w, now) =>
      && !s.queue.quit && Idle(s, w) && s.clock <= now && s.queue.q != []
      && (forall j :: 0 <= j < |s.queue.pq| ==> s.queue.pq[j].deadline >= now)
    case Finish(r) => r < |s.running|
    case Quit => true
  }

  /** What one critical section does to the queue, and which task it hands to the worker. */
  function QueueAfter(queue: Queue, e: Event): (r: (Queue, Option<Task>))
    requires e.StartTimed? ==> e.k < |queue.pq|
    requires e.StartImmediate? ==> queue.q != []
  {
    match e
    case Submit(task) => (if task.timed then queue.(pq := queue.pq + [task]) else queue.(q := queue.q + [task]), None)
    case StartTimed(_, k, _) => (queue.(pq := Without(queue.pq, k)), Some(queue.pq[k]))
    case StartImmediate(_, _) => (queue.(q := queue.q[1..]), Some(queue.q[0]))
    case Finish(_) => (queue, None)
    case Quit => (queue.(quit := true), None)
  }

  function Apply(s: State, e: Event): (t: State)
    requires Enabled(s, e)
  {
    var (queue, task) := QueueAfter(s.queue, e);
    match e
    case Submit(task) => s.(queue := queue, submitted := s.submitted + [task])
    case StartTimed(w, _, now) => Start(s.(queue := queue), w, task.value, now)
    case StartImmediate(w, now) => Start(s.(queue := queue), w, task.value, now)
    case Finish(r) => s.(running := Without(s.running, r), done := s.done + [s.running[r].task])
    case Quit => s.(queue := queue)
  }

  function Start(s: State, worker: nat, task: Task, now: int): (t: State)
  {
    s.(running := s.running + [Running(worker, task)],
       started := s.started + [Started(task, now, |s.submitted|)], clock := now)
  }

  /** The state after a run, when each of its steps was possible. */
  function After(es: seq<Event>): (s: Option<State>)
  {
    if es == [] then Some(INITIAL) else
      match After(es[..|es| - 1])
      case None => None
      case Some(s) => if Enabled(s, es[|es| - 1]) then Some(Apply(s, es[|es| - 1])) else None
  }

  // --- what every run keeps ---

  function TasksOf(running: seq<Running>): (s: seq<Task>)
    ensures |s| == |running|
  {
    seq(|running|, i requires 0 <= i < |running| => running[i].task)
  }

  function StartedTasks(started: seq<Started>): (s: seq<Task>)
    ensures |s| == |started|
  {
    seq(|started|, i requires 0 <= i < |started| => started[i].task)
  }

  /** The tasks for now, in order. */
  function Immediate(ts: seq<Task>): (s: seq<Task>)
  {
    if ts == [] then [] else (if ts[0].timed then [] else [ts[0]]) + Immediate(ts[1..])
  }

  /** Submitted tasks are exactly those waiting, running or done, each once. */
  ghost predicate Conserved(s: State)
  {
    && (forall i :: 0 <= i < |s.submitted| ==> s.submitted[i].id == i)
    && multiset(s.queue.q) + multiset(s.queue.pq) + multiset(TasksOf(s.running)) + multiset(s.done)
       == multiset(s.submitted)
    && multiset(StartedTasks(s.started)) == multiset(TasksOf(s.running)) + multiset(s.done)
  }

  /** Tasks for now start in the order of their submission. */
  predicate InOrder(s: State)
  {
    && (forall j :: 0 <= j < |s.queue.pq| ==> s.queue.pq[j].timed)
    && Immediate(StartedTasks(s.started)) + s.queue.q == Immediate(s.submitted)
  }

  /** Tasks for later start after their time, an earlier one before a later one that was waiting too. */
  predicate Timely(s: State)
  {
    && (forall i :: 0 <= i < |s.started| ==> s.started[i].time <= s.clock && s.started[i].known <= |s.submitted|)
    && (forall i :: 0 <= i < |s.started| && s.started[i].task.timed ==> s.started[i].task.deadline < s.started[i].time)
    && (forall i, j :: 0 <= i < j < |s.started| && Knows(s.started[i], s.started[j].task) ==>
          s.started[i].task.deadline <= s.started[j].task.deadline)
    && (forall i, j :: 0 <= i < |s.started| && 0 <= j < |s.queue.pq| && Knows(s.started[i], s.queue.pq[j]) ==>
          s.started[i].task.deadline <= s.queue.pq[j].deadline)
  }

  /** Both are for later, and the other one had been submitted when the first one started. */
  predicate Knows(a: Started, other: Task)
  {
    a.task.timed && other.timed && other.id < a.known
  }

  /** One worker runs one task at a time. */
  predicate OneEach(s: State)
  {
    forall i, j :: 0 <= i < j < |s.running| ==> s.running[i].worker != s.running[j].worker
  }

  ghost predicate Invariant(s: State)
  {
    Conserved(s) && InOrder(s) && Timely(s) && OneEach(s)
  }

  lemma {:induction false} ImmediateAppend(ts: seq<Task>, t: Task)
    ensures Immediate(ts + [t]) == Immediate(ts) + if t.timed then [] else [t]
  {
    if ts == [] {
      assert [t][1..] == [];
    } else {
      ImmediateAppend(ts[1..], t);
      assert (ts + [t])[1..] == ts[1..] + [t];
    }
  }

  /** Handing a waiting task to a worker conserves the tasks. */
  lemma StartConserves(s: State, t: State, worker: nat, task: Task, now: int)
    requires Conserved(s) && t == Start(s.(queue := t.queue), worker, task, now)
    requires multiset(s.queue.q) + multiset(s.queue.pq) == multiset(t.queue.q) + multiset(t.queue.pq) + multiset{task}
    ensures Conserved(t) && StartedTasks(t.started) == StartedTasks(s.started) + [task]
  {
    assert TasksOf(t.running) == TasksOf(s.running) + [task];
    assert StartedTasks(t.started) == StartedTasks(s.started) + [task];
    var running, done := multiset(TasksOf(s.running)), multiset(s.done);
    assert multiset(TasksOf(t.running)) == running + multiset{task};
  }

  lemma StartTimedKeeps(s: State, e: Event)
    requires Conserved(s) && InOrder(s) && Enabled(s, e) && e.StartTimed?
    ensures Conserved(Apply(s, e)) && InOrder(Apply(s, e))
  {
    hide Idle, Immediate, Conserved, StartedTasks, TasksOf;
    var t, task := Apply(s, e), s.queue.pq[e.k];
    WithoutMultiset(s.queue.pq, e.k);
    StartConserves(s, t, e.worker, task, e.now);
    ImmediateAppend(StartedTasks(s.started), task);
    assert Immediate(StartedTasks(s.started)) + [] == Immediate(StartedTasks(s.started));
    forall j | 0 <= j < |t.queue.pq| ensures t.queue.pq[j].timed {
      assert t.queue.pq[j] == s.queue.pq[if j < e.k then j else j + 1];
    }
  }

  lemma StartImmediateKeeps(s: State, e: Event)
    requires Conserved(s) && InOrder(s) && Enabled(s, e) && e.StartImmediate?
    ensures Conserved(Apply(s, e)) && InOrder(Apply(s, e))
  {
    hide Idle, Immediate, Conserved, StartedTasks, TasksOf;
    var t, task := Apply(s, e), s.queue.q[0];
    assert s.queue.q == [task] + s.queue.q[1..];
    StartConserves(s, t, e.worker, task, e.now);
    ImmediateAppend(StartedTasks(s.started), task);
    ImmediateHead(s, task);
  }

  /** The front of the queue is for now. */
  lemma ImmediateHead(s: State, task: Task)
    requires InOrder(s) && s.queue.q != [] && task == s.queue.q[0]
    ensures !task.timed
  {
    var a := Immediate(s.submitted);
    assert a[|Immediate(StartedTasks(s.started))|] == task;
    ImmediateOnly(s.submitted);
  }

  lemma {:induction false} ImmediateOnly(ts: seq<Task>)
    ensures forall k :: 0 <= k < |Immediate(ts)| ==> !Immediate(ts)[k].timed
  {
    if ts != [] {
      ImmediateOnly(ts[1..]);
    }
  }

  lemma FinishKeepsConserved(s: State, r: nat)
    requires Conserved(s) && InOrder(s) && r < |s.running|
    ensures Conserved(Apply(s, Finish(r))) && InOrder(Apply(s, Finish(r)))
  {
    WithoutMultiset(TasksOf(s.running), r);
    assert TasksOf(Without(s.running, r)) == Without(TasksOf(s.running), r);
  }

  lemma SubmitKeepsConserved(s: State, task: Task)
    requires Conserved(s) && InOrder(s) && Enabled(s, Submit(task))
    ensures Conserved(Apply(s, Submit(task))) && InOrder(Apply(s, Submit(task)))
  {
    ImmediateAppend(s.submitted, task);
  }

  lemma StartKeepsTimely(s: State, e: Event)
    requires Conserved(s) && Timely(s) && OneEach(s) && Enabled(s, e) && (e.StartTimed? || e.StartImmediate?)
    requires InOrder(s)
    ensures Timely(Apply(s, e)) && OneEach(Apply(s, e))
  {
    hide Conserved;
    var t := Apply(s, e);
    if e.StartTimed? {
      forall j | 0 <= j < |t.queue.pq|
        ensures t.queue.pq[j] in s.queue.pq && s.queue.pq[e.k].deadline <= t.queue.pq[j].deadline
      {
        assert t.queue.pq[j] == s.queue.pq[if j < e.k then j else j + 1];
      }
      forall j | 0 <= j < |t.queue.pq| ensures t.queue.pq[j] == s.queue.pq[if j < e.k then j else j + 1] {
      }
    } else {
      ImmediateHead(s, s.queue.q[0]);
    }
  }

  /** Steps that start nothing. */
  lemma OthersKeepTimely(s: State, e: Event)
    requires Timely(s) && OneEach(s) && Enabled(s, e) && !e.StartTimed? && !e.StartImmediate?
    ensures Timely(Apply(s, e)) && OneEach(Apply(s, e))
  {
  }

  lemma StepKeeps(s: State, e: Event)
    requires Invariant(s) && Enabled(s, e)
    ensures Invariant(Apply(s, e))
  {
    hide Conserved, InOrder, Timely, OneEach, Apply;
    match e {
      case Submit(task) =>
        SubmitKeepsConserved(s, task);
        OthersKeepTimely(s, e);
      case Finish(r) =>
        FinishKeepsConserved(s, r);
        OthersKeepTimely(s, e);
      case Quit =>
        QuitKeepsConserved(s);
        OthersKeepTimely(s, e);
      case StartTimed(_, _, _) =>
        StartTimedKeeps(s, e);
        StartKeepsTimely(s, e);
      case StartImmediate(_, _) =>
        StartImmediateKeeps(s, e);
        StartKeepsTimely(s, e);
    }
  }

  lemma QuitKeepsConserved(s: State)
    requires Conserved(s) && InOrder(s)
    ensures Conserved(Apply(s, Quit)) && InOrder(Apply(s, Quit))
  {
  }

  /** Over every interleaving of submitters and workers. */
  lemma {:induction false} EveryRun(es: seq<Event>)
    requires After(es).Some?
    ensures Invariant(After(es).value)
  {
    hide Invariant, Apply, Enabled;
    if es == [] {
      InitialHolds();
    } else {
      var before := es[..|es| - 1];
      EveryRun(before);
      StepKeeps(After(before).value, es[|es| - 1]);
    }
  }

  lemma InitialHolds()
    ensures Invariant(INITIAL)
  {
  }

  /** No task is started twice. */
  lemma NoneTwice(es: seq<Event>, i: nat, j: nat)
    requires After(es).Some? && i < j < |After(es).value.started|
    ensures After(es).value.started[i].task != After(es).value.started[j].task
  {
    EveryRun(es);
    var s := After(es).value;
    var ts := StartedTasks(s.started);
    DistinctTasks(s.submitted, ts[i]);
    TwiceCounts(ts, i, j);
    assert multiset(ts)[ts[i]] <= multiset(s.submitted)[ts[i]];
  }

  lemma {:induction false} DistinctTasks(submitted: seq<Task>, t: Task)
    requires forall i :: 0 <= i < |submitted| ==> submitted[i].id == i
    ensures multiset(submitted)[t] <= 1
  {
    if submitted != [] {
      var last := |submitted| - 1;
      assert submitted == submitted[..last] + [submitted[last]];
      DistinctTasks(submitted[..last], t);
      if t == submitted[last] {
        assert t !in submitted[..last];
        assert t !in multiset(submitted[..last]);
      }
    }
  }

  lemma TwiceCounts<T>(s: seq<T>, i: nat, j: nat)
    requires i < j < |s|
    ensures s[i] == s[j] ==> multiset(s)[s[i]] >= 2
  {
    assert s == s[..j] + ([s[j]] + s[j + 1..]);
    assert s[..j] == s[..i] + ([s[i]] + s[i + 1..j]);
  }

  /** Nothing starts after the queue has been told to quit. */
  lemma {:induction false} NothingAfterQuit(es: seq<Event>, fs: seq<Event>)
    requires After(es).Some? && After(es).value.queue.quit && After(es + fs).Some?
    ensures After(es + fs).value.queue.quit && After(es + fs).value.started == After(es).value.started
    decreases |fs|
  {
    if fs == [] {
      assert es + fs == es;
    } else {
      assert (es + fs)[..|es + fs| - 1] == es + fs[..|fs| - 1];
      NothingAfterQuit(es, fs[..|fs| - 1]);
    }
  }

  /** The queue has been told to quit exactly when a step of the run did so. */
  lemma {:induction false} QuitIff(es: seq<Event>)
    requires After(es).Some?
    ensures After(es).value.queue.quit <==> Quit in es
    decreases |es|
  {
    if es != [] {
      QuitIff(es[..|es| - 1]);
      assert es == es[..|es| - 1] + [es[|es| - 1]];
    }
  }

  lemma {:induction false} SomeTop(pq: seq<Task>) returns (k: nat)
    requires pq != []
    ensures IsTop(pq, k)
    decreases |pq|
  {
    k := |pq| - 1;
    if |pq| > 1 {
      var j := SomeTop(pq[..|pq| - 1]);
      if pq[j].deadline < pq[k].deadline {
        k := j;
      }
    }
  }

  /** A worker that runs nothing can start something if and only if nobody has told the queue to quit and
      there is a task for now, or one for later whose time is over. */
  lemma CanStartIff(s: State, worker: nat, now: int)
    requires Idle(s, worker) && s.clock <= now
    ensures (exists e :: Enabled(s, e) && (e.StartTimed? || e.StartImmediate?) && e.worker == worker && e.now == now)
       <==> !s.queue.quit && (s.queue.q != [] || exists j :: 0 <= j < |s.queue.pq| && s.queue.pq[j].deadline < now)
  {
    var pq := s.queue.pq;
    if !s.queue.quit {
      if j :| 0 <= j < |pq| && pq[j].deadline < now {
        var k := SomeTop(pq);
        assert Enabled(s, StartTimed(worker, k, now));
      } else if s.queue.q != [] {
        assert Enabled(s, StartImmediate(worker, now));
      }
    }
  }

  /** A task for now is only started while no task for later is due. */
  lemma DueGoFirst(s: State, e: Event, task: Task)
    requires Enabled(s, e) && e.StartImmediate? && task in s.queue.pq
    ensures task.deadline >= e.now
  {
  }

  /** In every run, a task that ends is done, and its worker is free for the next one. */
  lemma FinishFrees(es: seq<Event>, r: nat)
    requires After(es).Some? && r < |After(es).value.running|
    ensures var s, t := After(es).value, After(es + [Finish(r)]);
      && t.Some? && t.value.done == s.done + [s.running[r].task] && Idle(t.value, s.running[r].worker)
      && t.value.queue == s.queue && t.value.started == s.started
  {
    EveryRun(es);
    assert (es + [Finish(r)])[..|es|] == es;
    OnlyOne(After(es).value, r);
  }

  lemma OnlyOne(s: State, r: nat)
    requires OneEach(s) && r < |s.running|
    ensures forall k :: 0 <= k < |Without(s.running, r)| ==> Without(s.running, r)[k].worker != s.running[r].worker
  {
  }

  // --- the queue object ---

  class DispatchQueue {
    var q: seq<Task>
    var pq: seq<Task>
    var quit: bool

    constructor ()
      ensures View() == INITIAL.queue
    {
      q, pq, quit := [], [], false;
    }

    function View(): (v: Queue)
      reads this
    {
      Queue(q, pq, quit)
    }

    method Dispatch(task: Task)
      requires !task.timed
      modifies this
      ensures View() == QueueAfter(old(View()), Submit(task)).0
    {
      q := q + [task];
    }

    method DispatchAfter(task: Task)
      requires task.timed
      modifies this
      ensures View() == QueueAfter(old(View()), Submit(task)).0
    {
      pq := pq + [task];
    }

    /** The destructor's critical section. */
    method Destroy()
      modifies this
      ensures View() == QueueAfter(old(View()), Quit).0
    {
      quit := true;
    }

    /** The top of the heap; which one of several with the same time is the heap's business. */
    method Top() returns (k: nat)
      requires pq != []
      ensures IsTop(pq, k)
    {
      k := 0;
      for i := 1 to |pq|
        invariant k < i && forall j :: 0 <= j < i ==> pq[k].deadline <= pq[j].deadline
      {
        if pq[i].deadline < pq[k].deadline {
          k := i;
        }
      }
    }

    /** One pass of the worker's loop, up to where it lets go of the lock: a task for later whose
        time is over goes first. The event says which step of a run this is. */
    method TakeWork(now: int, ghost worker: nat) returns (task: Option<Task>, ghost e: Option<Event>)
      modifies this
      ensures task.None? ==> e.None? && View() == old(View())
      ensures task.None? ==> quit || (q == [] && forall j :: 0 <= j < |pq| ==> pq[j].deadline >= now)
      ensures task.Some? ==> e.Some? && (e.value.StartTimed? || e.value.StartImmediate?)
      ensures task.Some? ==> e.value.worker == worker && e.value.now == now
      ensures task.Some? ==> forall s: State :: s.queue == old(View()) && Idle(s, worker) && s.clock <= now ==>
                Enabled(s, e.value) && (View(), task) == QueueAfter(s.queue, e.value)
    {
      task, e := None, None;
      if quit {
        return;
      }
      if |pq| > 0 {
        var k := Top();
        if pq[k].deadline < now {
          task, e := Some(pq[k]), Some(StartTimed(worker, k, now));
          pq := Without(pq, k);
          return;
        }
      }
      if |q| > 0 {
        task, e := Some(q[0]), Some(StartImmediate(worker, now));
        q := q[1..];
      }
    }
  }
}
