/** The thread pool as a transition system (projects/final_project/framework/src/thread_pool.cpp).

    One controller thread calls Run, Pause, Stop and SetNumOfThreads one after the
    other; any number of workers take items from a shared priority queue; anybody may
    add tasks at any time.  Each action below is one atomic step: a push or pop of a
    WaitableQueue, a semaphore operation, the start of a thread, or a change of the
    fields of the controller. */
module ThreadPool {

  type WorkerId = nat
  type TaskId = nat

  const LOW := 1
  const HIGH := 3
  const PAUSE_PRIORITY := HIGH + 1
  const STOP_PRIORITY := LOW - 1

  datatype Item = User(task: TaskId, priority: int) | PauseApple | StopApple

  function Priority(item: Item): int {
    match item
    case User(_, priority) => priority
    case PauseApple => PAUSE_PRIORITY
    case StopApple => STOP_PRIORITY
  }

  /** Where a worker is in RunThread. */
  datatype Worker = Idle | Executing(task: TaskId) | Acquiring | Dying

  /** Where the controller is.  `left` counts what is still to be done in the loop,
      `target` is the argument of SetNumOfThreads. */
  datatype Controller =
    | Ready
    | Pausing(left: nat)
    | AddingApples(left: nat, target: nat)
    | Spawning(left: nat, target: nat)
    | PushingStops(left: nat, target: nat)
    | Releasing(target: nat)
    | Collecting(left: nat, target: nat)

  /** `added` and `executed` record which tasks were ever added and have run to their end. */
  datatype State = State(
    control: Controller,
    numThreads: nat,
    paused: bool,
    permits: nat,
    queue: multiset<Item>,
    workers: map<WorkerId, Worker>,
    toRemove: seq<WorkerId>,
    added: set<TaskId>,
    executed: set<TaskId>)

  function Initial(): State {
    State(Ready, 0, true, 0, multiset{}, map[], [], {}, {})
  }

  datatype Action =
    | Add(task: TaskId, priority: int)
    | Run
    | Pause
    | SetNumOfThreads(target: nat)
    | Continue(newId: WorkerId)
    | Pop(worker: WorkerId, item: Item)
    | Acquire(worker: WorkerId)
    | Finish(worker: WorkerId)
    | Exit(worker: WorkerId)

  predicate IsTop(queue: multiset<Item>, item: Item) {
    item in queue && forall other :: other in queue ==> Priority(other) <= Priority(item)
  }

  predicate Enabled(s: State, a: Action) {
    match a
    case Add(task, priority) => task !in s.added && LOW <= priority <= HIGH
    case Run => s.control == Ready
    case Pause => s.control == Ready
    case SetNumOfThreads(_) => s.control == Ready
    case Continue(newId) =>
      && s.control != Ready
      && (s.control.Spawning? ==> newId !in s.workers && newId !in s.toRemove)
      && (s.control.Collecting? && s.control.left > 0 ==> s.toRemove != [])
    case Pop(w, item) => w in s.workers && s.workers[w] == Idle && IsTop(s.queue, item)
    case Acquire(w) => w in s.workers && s.workers[w] == Acquiring && s.permits > 0
    case Finish(w) => w in s.workers && s.workers[w].Executing?
    case Exit(w) => w in s.workers && s.workers[w] == Dying
  }

  /** BadAppleTaskPause blocks on the semaphore, BadAppleTaskStop ends the loop of the worker. */
  function Taking(item: Item): Worker {
    match item
    case User(task, _) => Executing(task)
    case PauseApple => Acquiring
    case StopApple => Dying
  }

  function Call(s: State, target: nat): Controller {
    if s.numThreads < target then
      if s.paused then AddingApples(target - s.numThreads, target) else Spawning(target - s.numThreads, target)
    else PushingStops(s.numThreads - target, target)
  }

  function Resume(s: State, newId: WorkerId): State
    requires Enabled(s, Continue(newId))
  {
    match s.control
    case Ready => s
    case Pausing(left) =>
      if left == 0 then s.(control := Ready)
      else s.(control := Pausing(left - 1), queue := s.queue + multiset{PauseApple})
    case AddingApples(left, target) =>
      if left == 0 then s.(control := Spawning(if s.numThreads < target then target - s.numThreads else 0, target))
      else s.(control := AddingApples(left - 1, target), queue := s.queue + multiset{PauseApple})
    case Spawning(left, target) =>
      if left == 0 then s.(control := Ready, numThreads := target)
      else s.(control := Spawning(left - 1, target), workers := s.workers[newId := Idle])
    case PushingStops(left, target) =>
      if left == 0 then s.(control := Releasing(target))
      else s.(control := PushingStops(left - 1, target), queue := s.queue + multiset{StopApple})
    case Releasing(target) =>
      var removed := if target <= s.numThreads then s.numThreads - target else 0;
      s.(control := Collecting(removed, target), permits := if s.paused then s.permits + removed else s.permits)
    case Collecting(left, target) =>
      if left == 0 then s.(control := Ready, numThreads := target)
      else s.(control := Collecting(left - 1, target), toRemove := s.toRemove[1..])
  }

  function Next(s: State, a: Action): State
    requires Enabled(s, a)
  {
    match a
    case Add(task, priority) => s.(queue := s.queue + multiset{User(task, priority)}, added := s.added + {task})
    case Run => if s.paused then s.(permits := s.permits + s.numThreads, paused := false) else s
    case Pause => if s.paused then s else s.(paused := true, control := Pausing(s.numThreads))
    case SetNumOfThreads(target) => s.(control := Call(s, target))
    case Continue(newId) => Resume(s, newId)
    case Pop(w, item) => s.(queue := s.queue - multiset{item}, workers := s.workers[w := Taking(item)])
    case Acquire(w) => s.(permits := s.permits - 1, workers := s.workers[w := Idle])
    case Finish(w) => s.(workers := s.workers[w := Idle], executed := s.executed + {s.workers[w].task})
    case Exit(w) => s.(workers := s.workers - {w}, toRemove := s.toRemove + [w])
  }

  // ---------- counting workers ----------

  function WorkersIn(ws: map<WorkerId, Worker>, at: Worker): set<WorkerId> {
    set w | w in ws && ws[w] == at
  }

  function Count(ws: map<WorkerId, Worker>, at: Worker): nat { |WorkersIn(ws, at)| }

  function Indicator(b: bool): nat { if b then 1 else 0 }

  lemma CountUpdate(ws: map<WorkerId, Worker>, w: WorkerId, to: Worker, at: Worker)
    ensures Count(ws[w := to], at) == Count(ws, at) - Indicator(w in ws && ws[w] == at) + Indicator(to == at)
  {
    var before, after := WorkersIn(ws, at), WorkersIn(ws[w := to], at);
    if to == at {
      assert after == before + {w};
    } else {
      assert after == before - {w};
    }
  }

  lemma CountRemove(ws: map<WorkerId, Worker>, w: WorkerId, at: Worker)
    requires w in ws
    ensures Count(ws - {w}, at) == Count(ws, at) - Indicator(ws[w] == at)
    ensures |ws - {w}| == |ws| - 1
  {
    assert WorkersIn(ws - {w}, at) == WorkersIn(ws, at) - {w};
    assert (ws - {w}).Keys == ws.Keys - {w};
  }

  lemma SizeUpdate(ws: map<WorkerId, Worker>, w: WorkerId, to: Worker)
    ensures |ws[w := to]| == |ws| + Indicator(w !in ws)
  {
    assert ws[w := to].Keys == ws.Keys + {w};
  }

  // ---------- the invariant ----------

  /** The place of the controller makes sense. */
  predicate InPlace(s: State) {
    match s.control
    case Ready => true
    case Pausing(left) => s.paused && left <= s.numThreads
    case AddingApples(left, target) => s.paused && s.numThreads < target && left <= target - s.numThreads
    case Spawning(left, target) => s.numThreads < target && left <= target - s.numThreads
    case PushingStops(left, target) => target <= s.numThreads && left <= s.numThreads - target
    case Releasing(target) => target <= s.numThreads
    case Collecting(left, target) => target <= s.numThreads && left <= s.numThreads - target
  }

  /** How many workers are, or are bound to be, held back by the pause mechanism. */
  function Held(s: State): int {
    match s.control
    case Pausing(left) => s.numThreads - left
    case AddingApples(left, target) => target - left
    case Spawning(_, target) => if s.paused then target else 0
    case Collecting(_, target) => if s.paused then target else 0
    case _ => if s.paused then s.numThreads else 0
  }

  /** How many threads have been started and not yet joined. */
  function Started(s: State): int {
    match s.control
    case Spawning(left, target) => target - left
    case Collecting(left, target) => target + left
    case _ => s.numThreads
  }

  /** How many stop apples have been pushed whose worker has not yet been joined. */
  function Stopping(s: State): int {
    match s.control
    case PushingStops(left, target) => s.numThreads - target - left
    case Releasing(target) => s.numThreads - target
    case Collecting(left, target) => left
    case _ => 0
  }

  predicate Balanced(s: State) {
    && s.queue[PauseApple] + Count(s.workers, Acquiring) - s.permits == Held(s)
    && |s.workers| + |s.toRemove| == Started(s)
    && s.queue[StopApple] + Count(s.workers, Dying) + |s.toRemove| == Stopping(s)
  }

  predicate Queued(queue: multiset<Item>, task: TaskId) {
    exists item :: item in queue && item.User? && item.task == task
  }

  predicate Underway(ws: map<WorkerId, Worker>, task: TaskId) {
    exists w :: w in ws && ws[w] == Executing(task)
  }

  /** Every task ever added is in exactly one of three places: waiting in the queue,
      held by one worker, or executed. */
  ghost predicate TasksAccounted(s: State) {
    && (forall task :: task in s.added <==> Queued(s.queue, task) || Underway(s.workers, task) || task in s.executed)
    && (forall task :: Queued(s.queue, task) ==> !Underway(s.workers, task))
    && (forall task :: task in s.executed ==> !Queued(s.queue, task) && !Underway(s.workers, task))
    && (forall item :: item in s.queue && item.User? ==> s.queue[item] == 1 && LOW <= item.priority <= HIGH)
    && (forall i, j :: i in s.queue && j in s.queue && i.User? && j.User? && i.task == j.task ==> i == j)
    && (forall v, w :: v in s.workers && w in s.workers && s.workers[v].Executing? && s.workers[v] == s.workers[w] ==> v == w)
  }

  ghost predicate Invariant(s: State) {
    InPlace(s) && Balanced(s) && TasksAccounted(s)
  }

  lemma InitialInvariant()
    ensures Invariant(Initial())
  {
    assert WorkersIn(map[], Acquiring) == {} && WorkersIn(map[], Dying) == {};
  }

  lemma CallBalanced(s: State, a: Action)
    requires InPlace(s) && Balanced(s) && Enabled(s, a)
    requires a.Add? || a.Run? || a.Pause? || a.SetNumOfThreads?
    ensures InPlace(Next(s, a)) && Balanced(Next(s, a))
  {
  }

  lemma SpawnBalanced(s: State, newId: WorkerId)
    requires InPlace(s) && Balanced(s) && Enabled(s, Continue(newId)) && s.control.Spawning?
    ensures InPlace(Resume(s, newId)) && Balanced(Resume(s, newId))
  {
    CountUpdate(s.workers, newId, Idle, Acquiring);
    CountUpdate(s.workers, newId, Idle, Dying);
    SizeUpdate(s.workers, newId, Idle);
  }

  lemma ApplesBalanced(s: State, newId: WorkerId)
    requires InPlace(s) && Balanced(s) && Enabled(s, Continue(newId)) && (s.control.Pausing? || s.control.AddingApples?)
    ensures InPlace(Resume(s, newId)) && Balanced(Resume(s, newId))
  {
  }

  lemma ShrinkBalanced(s: State, newId: WorkerId)
    requires InPlace(s) && Balanced(s) && Enabled(s, Continue(newId))
    requires s.control.PushingStops? || s.control.Releasing? || s.control.Collecting?
    ensures InPlace(Resume(s, newId)) && Balanced(Resume(s, newId))
  {
  }

  lemma ContinueBalanced(s: State, newId: WorkerId)
    requires InPlace(s) && Balanced(s) && Enabled(s, Continue(newId))
    ensures InPlace(Resume(s, newId)) && Balanced(Resume(s, newId))
  {
    if s.control.Spawning? {
      SpawnBalanced(s, newId);
    } else if s.control.Pausing? || s.control.AddingApples? {
      ApplesBalanced(s, newId);
    } else {
      ShrinkBalanced(s, newId);
    }
  }

  /** The counts seen by a worker that moves on. */
  lemma MoveCounts(s: State, w: WorkerId, to: Worker)
    requires w in s.workers
    ensures |s.workers[w := to]| == |s.workers|
    ensures Count(s.workers[w := to], Acquiring) ==
            Count(s.workers, Acquiring) - Indicator(s.workers[w] == Acquiring) + Indicator(to == Acquiring)
    ensures Count(s.workers[w := to], Dying) ==
            Count(s.workers, Dying) - Indicator(s.workers[w] == Dying) + Indicator(to == Dying)
  {
    CountUpdate(s.workers, w, to, Acquiring);
    CountUpdate(s.workers, w, to, Dying);
    SizeUpdate(s.workers, w, to);
  }

  lemma PopBalanced(s: State, w: WorkerId, item: Item)
    requires InPlace(s) && Balanced(s) && Enabled(s, Pop(w, item))
    ensures InPlace(Next(s, Pop(w, item))) && Balanced(Next(s, Pop(w, item)))
  {
    MoveCounts(s, w, Taking(item));
  }

  lemma WorkerBalanced(s: State, a: Action)
    requires InPlace(s) && Balanced(s) && Enabled(s, a)
    requires a.Acquire? || a.Finish? || a.Exit?
    ensures InPlace(Next(s, a)) && Balanced(Next(s, a))
  {
    if a.Exit? {
      CountRemove(s.workers, a.worker, Acquiring);
      CountRemove(s.workers, a.worker, Dying);
    } else {
      MoveCounts(s, a.worker, Idle);
    }
  }

  // ---------- no task is lost or run twice ----------

  lemma AddAccounted(s: State, task: TaskId, priority: int)
    requires TasksAccounted(s) && Enabled(s, Add(task, priority))
    ensures TasksAccounted(Next(s, Add(task, priority)))
  {
    var queue := s.queue + multiset{User(task, priority)};
    assert !Queued(s.queue, task) && !Underway(s.workers, task) && task !in s.executed;
    assert User(task, priority) in queue;
    forall t ensures Queued(queue, t) <==> Queued(s.queue, t) || t == task {
      if i :| i in s.queue && i.User? && i.task == t { assert i in queue; }
    }
    forall i, j | i in queue && j in queue && i.User? && j.User? && i.task == j.task ensures i == j {
      assert i != User(task, priority) ==> i in s.queue && i.task != task;
      assert j != User(task, priority) ==> j in s.queue && j.task != task;
    }
  }

  /** Nothing has happened that concerns a task. */
  ghost predicate SameTasks(s: State, s': State) {
    && s'.added == s.added && s'.executed == s.executed
    && (forall item: Item :: item.User? ==> s'.queue[item] == s.queue[item])
    && (forall w, t :: w in s.workers && s.workers[w] == Executing(t) ==> w in s'.workers && s'.workers[w] == Executing(t))
    && (forall w, t :: w in s'.workers && s'.workers[w] == Executing(t) ==> w in s.workers && s.workers[w] == Executing(t))
  }

  lemma SameTasksAccounted(s: State, s': State)
    requires TasksAccounted(s) && SameTasks(s, s')
    ensures TasksAccounted(s')
  {
    forall item: Item | item.User? ensures item in s'.queue <==> item in s.queue {
      assert s'.queue[item] == s.queue[item];
    }
    forall t ensures Queued(s'.queue, t) <==> Queued(s.queue, t) {}
    forall t ensures Underway(s'.workers, t) <==> Underway(s.workers, t) {}
  }

  /** Moves of the controller leave tasks alone. */
  lemma ControlAccounted(s: State, a: Action)
    requires TasksAccounted(s) && Enabled(s, a)
    requires a.Run? || a.Pause? || a.SetNumOfThreads? || a.Continue?
    ensures TasksAccounted(Next(s, a))
  {
    if a.Continue? {
      ResumeSameTasks(s, a.newId);
    }
    SameTasksAccounted(s, Next(s, a));
  }

  lemma ResumeSameTasks(s: State, newId: WorkerId)
    requires Enabled(s, Continue(newId))
    ensures SameTasks(s, Resume(s, newId))
  {
    ResumeQueue(s, newId);
  }

  lemma ResumeQueue(s: State, newId: WorkerId)
    requires Enabled(s, Continue(newId))
    ensures forall item: Item :: item.User? ==> Resume(s, newId).queue[item] == s.queue[item]
  {}

  lemma UnderwayTaking(ws: map<WorkerId, Worker>, w: WorkerId, item: Item)
    requires w in ws && ws[w] == Idle
    ensures forall t :: Underway(ws[w := Taking(item)], t) <==> Underway(ws, t) || (item.User? && item.task == t)
  {
    var ws' := ws[w := Taking(item)];
    forall t ensures Underway(ws', t) <==> Underway(ws, t) || (item.User? && item.task == t) {
      if v :| v in ws && ws[v] == Executing(t) { assert v in ws' && ws'[v] == Executing(t); }
      assert w in ws';
    }
  }

  lemma PopAccounted(s: State, w: WorkerId, item: Item)
    requires TasksAccounted(s) && Enabled(s, Pop(w, item))
    ensures TasksAccounted(Next(s, Pop(w, item)))
  {
    var s' := Next(s, Pop(w, item));
    forall i: Item | i.User? ensures s'.queue[i] == s.queue[i] - Indicator(i == item) {}
    forall t ensures Queued(s'.queue, t) <==> Queued(s.queue, t) && !(item.User? && item.task == t) {
      if i :| i in s.queue && i.User? && i.task == t { assert i != item ==> i in s'.queue; }
    }
    UnderwayTaking(s.workers, w, item);
    assert item.User? ==> Queued(s.queue, item.task);
  }

  lemma WorkerAccounted(s: State, a: Action)
    requires TasksAccounted(s) && Enabled(s, a)
    requires a.Acquire? || a.Finish? || a.Exit?
    ensures TasksAccounted(Next(s, a))
  {
    var s' := Next(s, a);
    forall t ensures Underway(s'.workers, t) <==> Underway(s.workers, t) && s.workers[a.worker] != Executing(t) {
      if v :| v in s.workers && s.workers[v] == Executing(t) {
        assert v != a.worker ==> v in s'.workers && s'.workers[v] == Executing(t);
        assert forall u :: u in s'.workers && s'.workers[u] == Executing(t) ==> s.workers[u] == Executing(t);
      }
    }
    assert a.Finish? ==> Underway(s.workers, s.workers[a.worker].task);
  }

  /** Every action keeps the invariant. */
  lemma NextInvariant(s: State, a: Action)
    requires Invariant(s) && Enabled(s, a)
    ensures Invariant(Next(s, a))
  {
    match a
    case Add(task, priority) => CallBalanced(s, a); AddAccounted(s, task, priority);
    case Run => CallBalanced(s, a); ControlAccounted(s, a);
    case Pause => CallBalanced(s, a); ControlAccounted(s, a);
    case SetNumOfThreads(_) => CallBalanced(s, a); ControlAccounted(s, a);
    case Continue(newId) => ContinueBalanced(s, newId); ControlAccounted(s, a);
    case Pop(w, item) => PopBalanced(s, w, item); PopAccounted(s, w, item);
    case _ => WorkerBalanced(s, a); WorkerAccounted(s, a);
  }

  predicate Legal(s: State, run: seq<Action>)
    decreases |run|
  {
    run == [] || (Enabled(s, run[0]) && Legal(Next(s, run[0]), run[1..]))
  }

  function After(s: State, run: seq<Action>): State
    requires Legal(s, run)
    decreases |run|
  {
    if run == [] then s else After(Next(s, run[0]), run[1..])
  }

  lemma {:induction false} RunInvariant(s: State, run: seq<Action>)
    requires Invariant(s) && Legal(s, run)
    ensures Invariant(After(s, run))
    decreases |run|
  {
    if run != [] {
      NextInvariant(s, run[0]);
      RunInvariant(Next(s, run[0]), run[1..]);
    }
  }

  /** Between two calls of the controller, after any run: the queued pause apples and the blocked
      workers, less the free permits, are all threads of a paused pool and none of a running one. */
  lemma ApplesConserved(run: seq<Action>)
    requires Legal(Initial(), run)
    ensures var s := After(Initial(), run);
            s.control == Ready ==>
              && s.queue[PauseApple] + Count(s.workers, Acquiring) - s.permits == (if s.paused then s.numThreads else 0)
              && |s.workers| == s.numThreads && StopApple !in s.queue
  {
    InitialInvariant();
    RunInvariant(Initial(), run);
  }

  // ---------- pausing ----------

  lemma CountAll(ws: map<WorkerId, Worker>, at: Worker)
    requires Count(ws, at) >= |ws|
    ensures Count(ws, at) == |ws| && forall w :: w in ws ==> ws[w] == at
  {
    var all := WorkersIn(ws, at);
    assert all <= ws.Keys;
    if w :| w in ws && ws[w] != at {
      assert all <= ws.Keys - {w};
      SubsetSize(all, ws.Keys - {w});
    }
    SubsetSize(all, ws.Keys);
  }

  lemma {:induction false} SubsetSize<T>(a: set<T>, b: set<T>)
    requires a <= b
    ensures |a| <= |b|
  {
    if x :| x in a {
      SubsetSize(a - {x}, b - {x});
    }
  }

  /** Once Pause has returned, and until Run or a resize is called, no worker can start a
      user task, whatever the interleaving; and when the apples are used up every worker is blocked. */
  lemma PausedStartsNothing(s: State)
    requires Invariant(s) && s.control == Ready && s.paused
    ensures forall w, item: Item :: item.User? ==> !Enabled(s, Pop(w, item))
    ensures s.queue[PauseApple] == 0 ==> s.permits == 0 && forall w :: w in s.workers ==> s.workers[w] == Acquiring
  {
    if s.queue[PauseApple] == 0 {
      CountAll(s.workers, Acquiring);
    } else {
      assert PauseApple in s.queue;
    }
  }

  // ---------- resizing never deadlocks ----------

  /** While the controller waits for exiting workers, somebody other than the callers of
      Add can always take a step. */
  lemma CollectingNotStuck(s: State) returns (a: Action)
    requires Invariant(s) && s.control.Collecting?
    ensures !a.Add? && Enabled(s, a)
  {
    if s.control.left == 0 || s.toRemove != [] {
      a := Continue(0);
    } else if w :| w in s.workers && s.workers[w] == Dying {
      a := Exit(w);
    } else if w :| w in s.workers && s.workers[w].Executing? {
      a := Finish(w);
    } else if w :| w in s.workers && s.workers[w] == Idle {
      assert Count(s.workers, Dying) == 0 by { assert WorkersIn(s.workers, Dying) == {}; }
      assert StopApple in s.queue;
      var item := TopItem(s.queue);
      a := Pop(w, item);
    } else {
      assert WorkersIn(s.workers, Acquiring) == s.workers.Keys;
      assert s.permits > 0;
      var w :| w in WorkersIn(s.workers, Acquiring);
      a := Acquire(w);
    }
  }

  lemma {:induction false} TopItem(queue: multiset<Item>) returns (top: Item)
    requires queue != multiset{}
    ensures IsTop(queue, top)
    decreases |queue|
  {
    var item :| item in queue;
    var rest := queue - multiset{item};
    if rest == multiset{} {
      top := item;
      assert forall other :: other in queue ==> other == item || other in rest;
    } else {
      var best := TopItem(rest);
      top := if Priority(best) < Priority(item) then item else best;
      assert forall other :: other in queue ==> other == item || other in rest;
    }
  }

  /** What is left to do while the controller waits for exiting workers. */
  function Remaining(s: State): nat {
    CountAtMost(s.workers, Idle);
    3 * |s.queue| + 2 * (|s.workers| - Count(s.workers, Idle)) + |s.toRemove| +
    (if s.control.Collecting? then s.control.left + 1 else 0)
  }

  lemma CountAtMost(ws: map<WorkerId, Worker>, at: Worker)
    ensures Count(ws, at) <= |ws|
  {
    SubsetSize(WorkersIn(ws, at), ws.Keys);
  }

  lemma CollectingProgresses(s: State, a: Action)
    requires s.control.Collecting? && Enabled(s, a) && !a.Add?
    ensures Remaining(Next(s, a)) < Remaining(s)
  {
    match a
    case Continue(_) =>
    case Pop(w, item) =>
      CountUpdate(s.workers, w, Taking(item), Idle);
      SizeUpdate(s.workers, w, Taking(item));
    case Exit(w) => CountRemove(s.workers, w, Idle);
    case Acquire(w) =>
      CountUpdate(s.workers, w, Idle, Idle);
      SizeUpdate(s.workers, w, Idle);
    case Finish(w) =>
      CountUpdate(s.workers, w, Idle, Idle);
      SizeUpdate(s.workers, w, Idle);
    case _ =>
  }

  predicate StaysCollecting(s: State, run: seq<Action>)
    decreases |run|
  {
    s.control.Collecting? && (run == [] || (Enabled(s, run[0]) && StaysCollecting(Next(s, run[0]), run[1..])))
  }

  /** How many tasks are added in a run. */
  function Adds(run: seq<Action>): nat {
    if run == [] then 0 else (if run[0].Add? then 1 else 0) + Adds(run[1..])
  }

  lemma AddRaises(s: State, a: Action)
    requires Enabled(s, a) && a.Add?
    ensures Remaining(Next(s, a)) == Remaining(s) + 3
  {}

  /** So the wait in ShrinkThreads ends under every schedule, as started tasks finish: no run can stay
      in it longer than what is left to do, and each task added meanwhile prolongs it by at most four steps. */
  lemma {:induction false} CollectingEnds(s: State, run: seq<Action>)
    requires Invariant(s) && StaysCollecting(s, run)
    ensures |run| < Remaining(s) + 4 * Adds(run)
    decreases |run|
  {
    CountAtMost(s.workers, Idle);
    if run != [] {
      NextInvariant(s, run[0]);
      if run[0].Add? { AddRaises(s, run[0]); } else { CollectingProgresses(s, run[0]); }
      CollectingEnds(Next(s, run[0]), run[1..]);
    }
  }

  // ---------- what holds when SetNumOfThreads returns ----------

  /** A run from inside a call of the controller up to its return. */
  predicate Returns(s: State, run: seq<Action>)
    decreases |run|
  {
    if run == [] then s.control == Ready
    else s.control != Ready && Enabled(s, run[0]) && Returns(Next(s, run[0]), run[1..])
  }

  function AtReturn(s: State, run: seq<Action>): State
    requires Returns(s, run)
    decreases |run|
  {
    if run == [] then s else AtReturn(Next(s, run[0]), run[1..])
  }

  lemma {:induction false} AtReturnReady(s: State, run: seq<Action>)
    requires Returns(s, run)
    ensures AtReturn(s, run).control == Ready
    decreases |run|
  {
    if run != [] { AtReturnReady(Next(s, run[0]), run[1..]); }
  }

  predicate ResizingTo(s: State, target: nat) {
    match s.control
    case AddingApples(_, t) => t == target
    case Spawning(_, t) => t == target
    case PushingStops(_, t) => t == target
    case Releasing(t) => t == target
    case Collecting(_, t) => t == target
    case _ => false
  }

  lemma ResizeStep(s: State, a: Action, target: nat)
    requires InPlace(s) && ResizingTo(s, target) && Enabled(s, a)
    ensures var s' := Next(s, a); if s'.control == Ready then s'.numThreads == target else ResizingTo(s', target) && s'.numThreads == s.numThreads
  {}

  lemma {:induction false} ReturnsResized(s: State, run: seq<Action>, target: nat)
    requires Invariant(s) && ResizingTo(s, target) && Returns(s, run)
    ensures Invariant(AtReturn(s, run)) && AtReturn(s, run).numThreads == target
    decreases |run|
  {
    NextInvariant(s, run[0]);
    ResizeStep(s, run[0], target);
    if Next(s, run[0]).control != Ready {
      ReturnsResized(Next(s, run[0]), run[1..], target);
    }
  }

  /** Exactly as many workers are alive as asked for, none is on its way out, and no stop
      apple is left behind. */
  lemma SetNumOfThreadsReturns(s: State, target: nat, run: seq<Action>)
    requires Invariant(s) && s.control == Ready && Returns(Next(s, SetNumOfThreads(target)), run)
    ensures var end := AtReturn(Next(s, SetNumOfThreads(target)), run);
            && Invariant(end) && end.numThreads == target
            && |end.workers| == target && end.toRemove == []
            && StopApple !in end.queue && forall w :: w in end.workers ==> end.workers[w] != Dying
  {
    var s1 := Next(s, SetNumOfThreads(target));
    NextInvariant(s, SetNumOfThreads(target));
    ReturnsResized(s1, run, target);
    AtReturnReady(s1, run);
    NobodyLeaving(AtReturn(s1, run));
  }

  lemma NobodyLeaving(s: State)
    requires Balanced(s) && s.control == Ready
    ensures |s.workers| == s.numThreads && s.toRemove == []
    ensures StopApple !in s.queue && forall w :: w in s.workers ==> s.workers[w] != Dying
  {
    assert WorkersIn(s.workers, Dying) == {};
    forall w | w in s.workers ensures s.workers[w] != Dying {
      assert w !in WorkersIn(s.workers, Dying);
    }
  }

  // ---------- Stop runs everything that was added before ----------

  /** How many stop apples this shrinking call has pushed so far. */
  function Pushed(s: State): int {
    match s.control
    case PushingStops(left, target) => s.numThreads - target - left
    case Releasing(target) => s.numThreads - target
    case Collecting(_, target) => s.numThreads - target
    case _ => 0
  }

  predicate Shrinking(s: State) { s.control.PushingStops? || s.control.Releasing? || s.control.Collecting? }

  /** A stop apple leaves the queue only when no task is waiting, so from then on none of the
      earlier tasks waits. */
  ghost predicate DrainedOnceStopped(s: State, before: set<TaskId>) {
    s.queue[StopApple] < Pushed(s) ==> forall t :: t in before ==> !Queued(s.queue, t)
  }

  lemma NotQueuedAgain(s: State, a: Action, before: set<TaskId>)
    requires Enabled(s, a) && before <= s.added
    ensures forall t :: t in before && !Queued(s.queue, t) ==> !Queued(Next(s, a).queue, t)
  {}

  lemma StopsKept(s: State, a: Action)
    requires InPlace(s) && Shrinking(s) && Enabled(s, a) && !(a.Pop? && a.item == StopApple)
    ensures Shrinking(Next(s, a)) ==> Pushed(Next(s, a)) - Next(s, a).queue[StopApple] == Pushed(s) - s.queue[StopApple]
  {}

  lemma NextDrained(s: State, a: Action, before: set<TaskId>)
    requires Invariant(s) && Shrinking(s) && Enabled(s, a) && before <= s.added && DrainedOnceStopped(s, before)
    ensures Shrinking(Next(s, a)) ==> DrainedOnceStopped(Next(s, a), before)
  {
    if a.Pop? && a.item == StopApple {
      forall t | t in before ensures !Queued(Next(s, a).queue, t) {}
    } else {
      NotQueuedAgain(s, a, before);
      StopsKept(s, a);
    }
  }

  lemma ShrinkStep(s: State, a: Action, target: nat, before: set<TaskId>)
    requires Invariant(s) && Shrinking(s) && ResizingTo(s, target) && target < s.numThreads
    requires Enabled(s, a) && before <= s.added && DrainedOnceStopped(s, before)
    ensures var s' := Next(s, a);
            && before <= s'.added
            && if s'.control == Ready then forall t :: t in before ==> !Queued(s'.queue, t) else Shrinking(s') && DrainedOnceStopped(s', before)
  {
    NextDrained(s, a, before);
  }

  lemma {:induction false} ShrinkDrains(s: State, run: seq<Action>, target: nat, before: set<TaskId>)
    requires Invariant(s) && Shrinking(s) && ResizingTo(s, target) && target < s.numThreads
    requires before <= s.added && DrainedOnceStopped(s, before) && Returns(s, run)
    ensures before <= AtReturn(s, run).added && forall t :: t in before ==> !Queued(AtReturn(s, run).queue, t)
    decreases |run|
  {
    NextInvariant(s, run[0]);
    ResizeStep(s, run[0], target);
    ShrinkStep(s, run[0], target, before);
    if Next(s, run[0]).control != Ready {
      ShrinkDrains(Next(s, run[0]), run[1..], target, before);
    }
  }

  lemma EmptyPoolKeeps(s: State, a: Action, task: TaskId)
    requires s.workers == map[] && Enabled(s, a) && Queued(s.queue, task)
    ensures Queued(Next(s, a).queue, task)
  {
    var item :| item in s.queue && item.User? && item.task == task;
    assert item in Next(s, a).queue;
  }

  /** A pool without threads that is told to stop leaves its queue and its record as they are. */
  lemma {:induction false} EmptyPoolStops(s: State, run: seq<Action>, task: TaskId)
    requires Invariant(s) && s.numThreads == 0 && Shrinking(s) && ResizingTo(s, 0) && Returns(s, run)
    requires Queued(s.queue, task)
    ensures Invariant(AtReturn(s, run)) && Queued(AtReturn(s, run).queue, task)
    decreases |run|
  {
    var s' := Next(s, run[0]);
    NextInvariant(s, run[0]);
    assert s.workers == map[] by { assert |s.workers| == 0; }
    EmptyPoolKeeps(s, run[0], task);
    if Shrinking(s') {
      EmptyPoolStops(s', run[1..], task);
    } else {
      assert s'.control == Ready && AtReturn(s', run[1..]) == s';
    }
  }

  lemma {:induction false} ExecutedGrows(s: State, run: seq<Action>)
    requires Returns(s, run)
    ensures s.executed <= AtReturn(s, run).executed
    decreases |run|
  {
    if run != [] {
      ExecutedGrows(Next(s, run[0]), run[1..]);
    }
  }

  /** When Stop returns, a task added before the call has been executed, exactly if the pool
      had a thread or the task was not waiting any more. */
  lemma StopExecutesAll(s: State, run: seq<Action>, task: TaskId)
    requires Invariant(s) && s.control == Ready && Returns(Next(s, SetNumOfThreads(0)), run) && task in s.added
    ensures task in AtReturn(Next(s, SetNumOfThreads(0)), run).executed <==> s.numThreads > 0 || !Queued(s.queue, task)
  {
    var s1 := Next(s, SetNumOfThreads(0));
    NextInvariant(s, SetNumOfThreads(0));
    SetNumOfThreadsReturns(s, 0, run);
    var end := AtReturn(s1, run);
    assert end.workers == map[] by { assert |end.workers| == 0; }
    if s.numThreads > 0 {
      ShrinkDrains(s1, run, 0, s.added);
    } else if Queued(s.queue, task) {
      EmptyPoolStops(s1, run, task);
    } else {
      assert s.workers == map[] by { assert |s.workers| == 0; }
      ExecutedGrows(s1, run);
    }
  }

  /** A shrinking resize leaves none of the earlier tasks waiting. */
  lemma ShrinkLeavesNoneWaiting(s: State, target: nat, run: seq<Action>, task: TaskId)
    requires Invariant(s) && s.control == Ready && target < s.numThreads && task in s.added
    requires Returns(Next(s, SetNumOfThreads(target)), run)
    ensures var end := AtReturn(Next(s, SetNumOfThreads(target)), run);
            !Queued(end.queue, task) && (Underway(end.workers, task) || task in end.executed)
  {
    NextInvariant(s, SetNumOfThreads(target));
    ShrinkDrains(Next(s, SetNumOfThreads(target)), run, target, s.added);
    SetNumOfThreadsReturns(s, target, run);
  }
}
