/** What the calls of the thread pool bring about (projects/final_project/framework/src/thread_pool.cpp):
    Run lets every worker go and a running pool executes everything it was given, Pause ends with no
    new task started, and tasks are taken in the order of their priorities. */
module ThreadPoolProgress {
  import opened ThreadPool

  /** A step that some worker takes. */
  predicate OfWorker(a: Action) { a.Pop? || a.Acquire? || a.Finish? || a.Exit? }

  /** No call of the controller is under way, and the pool is running. */
  ghost predicate Running(s: State) { Invariant(s) && s.control == Ready && !s.paused }

  // ---------- Run ----------

  /** After Run the pool is not paused, and there is a permit for every pause apple in the queue and
      for every worker that is blocked; nothing else has changed. */
  lemma RunOpens(s: State)
    requires Invariant(s) && s.control == Ready
    ensures var s' := Next(s, Run);
            && Running(s') && s'.permits == s'.queue[PauseApple] + Count(s'.workers, Acquiring)
            && s' == s.(paused := false, permits := s'.permits)
            && s'.permits == s.permits + (if s.paused then s.numThreads else 0)
  {
    NextInvariant(s, Run);
  }

  /** In a running pool with a thread, as long as a task has not been executed, some worker can take a step. */
  lemma RunningNotStuck(s: State, task: TaskId) returns (a: Action)
    requires Running(s) && s.numThreads > 0 && task in s.added && task !in s.executed
    ensures OfWorker(a) && Enabled(s, a)
  {
    NobodyLeaving(s);
    if w :| w in s.workers && s.workers[w].Executing? {
      a := Finish(w);
    } else if w :| w in s.workers && s.workers[w] == Idle {
      assert Queued(s.queue, task);
      var item := TopItem(s.queue);
      a := Pop(w, item);
    } else {
      assert WorkersIn(s.workers, Acquiring) == s.workers.Keys;
      var w :| w in WorkersIn(s.workers, Acquiring);
      a := Acquire(w);
    }
  }

  /** Every step of a worker lessens what is left to do. */
  lemma WorkerProgresses(s: State, a: Action)
    requires Enabled(s, a) && OfWorker(a) && s.control == Ready
    ensures Remaining(Next(s, a)) < Remaining(s)
  {
    match a
    case Pop(w, item) =>
      CountUpdate(s.workers, w, Taking(item), Idle);
      SizeUpdate(s.workers, w, Taking(item));
    case Exit(w) => CountRemove(s.workers, w, Idle);
    case Acquire(w) =>
      CountUpdate(s.workers, w, Idle, Idle);
      SizeUpdate(s.workers, w, Idle);
    case Finish(w) =>
      CountUpdate(s.workers, w, Idle, Idle);
      SizeUpdate(s.workers, w, Idle);
    case _ =>
  }

  /** A run during which nobody calls the controller: workers work, and tasks may be added. */
  predicate Undisturbed(s: State, run: seq<Action>)
    decreases |run|
  {
    run == [] || (Enabled(s, run[0]) && (OfWorker(run[0]) || run[0].Add?) && Undisturbed(Next(s, run[0]), run[1..]))
  }

  lemma {:induction false} UndisturbedLegal(s: State, run: seq<Action>)
    requires Undisturbed(s, run)
    ensures Legal(s, run)
    decreases |run|
  {
    if run != [] { UndisturbedLegal(Next(s, run[0]), run[1..]); }
  }

  /** A running pool stays one, and works for no longer than what is left to do and four steps for each task added. */
  lemma {:induction false} RunningEnds(s: State, run: seq<Action>)
    requires Running(s) && Undisturbed(s, run)
    ensures Legal(s, run) && Running(After(s, run)) && After(s, run).numThreads == s.numThreads
    ensures |run| <= Remaining(s) + 4 * Adds(run)
    decreases |run|
  {
    CountAtMost(s.workers, Idle);
    UndisturbedLegal(s, run);
    if run != [] {
      NextInvariant(s, run[0]);
      if run[0].Add? { AddRaises(s, run[0]); } else { WorkerProgresses(s, run[0]); }
      RunningEnds(Next(s, run[0]), run[1..]);
    }
  }

  /** Whatever the interleaving, when the workers of a running pool can go no further every task ever added has been executed. */
  lemma RunningExecutesAll(s: State, run: seq<Action>)
    requires Running(s) && s.numThreads > 0 && Undisturbed(s, run) && Legal(s, run)
    requires forall a :: OfWorker(a) ==> !Enabled(After(s, run), a)
    ensures After(s, run).added <= After(s, run).executed
  {
    RunningEnds(s, run);
    var end := After(s, run);
    forall task | task in end.added ensures task in end.executed {
      if task !in end.executed {
        var _ := RunningNotStuck(end, task);
      }
    }
  }

  /** And they can get there: from any running state within that many steps. */
  lemma {:induction false} RunningCanFinish(s: State) returns (run: seq<Action>)
    requires Running(s) && s.numThreads > 0
    ensures Undisturbed(s, run) && Legal(s, run) && Adds(run) == 0 && |run| <= Remaining(s)
    ensures After(s, run).added == s.added <= After(s, run).executed
    decreases Remaining(s)
  {
    run := [];
    if task :| task in s.added && task !in s.executed {
      var a := RunningNotStuck(s, task);
      NextInvariant(s, a);
      WorkerProgresses(s, a);
      var rest := RunningCanFinish(Next(s, a));
      run := [a] + rest;
      assert run[1..] == rest;
    }
  }

  // ---------- Pause ----------

  lemma {:induction false} PausingReturns(s: State, run: seq<Action>)
    requires Invariant(s) && s.paused && (s.control.Pausing? || s.control == Ready) && Returns(s, run)
    ensures var end := AtReturn(s, run); Invariant(end) && end.control == Ready && end.paused && end.numThreads == s.numThreads
    decreases |run|
  {
    if run != [] {
      NextInvariant(s, run[0]);
      PausingReturns(Next(s, run[0]), run[1..]);
    }
  }

  /** When Pause returns the pool is paused, no worker can start a task, and those that are not busy are blocked or will be. */
  lemma PauseReturns(s: State, run: seq<Action>)
    requires Invariant(s) && s.control == Ready && Returns(Next(s, Pause), run)
    ensures var end := AtReturn(Next(s, Pause), run);
            && Invariant(end) && end.control == Ready && end.paused && end.numThreads == s.numThreads
            && (forall w, item: Item :: item.User? ==> !Enabled(end, Pop(w, item)))
            && end.queue[PauseApple] + Count(end.workers, Acquiring) == end.permits + end.numThreads
  {
    NextInvariant(s, Pause);
    PausingReturns(Next(s, Pause), run);
    PausedStartsNothing(AtReturn(Next(s, Pause), run));
  }

  lemma PausedStep(s: State, a: Action, task: TaskId)
    requires Invariant(s) && s.control == Ready && s.paused && Enabled(s, a) && (OfWorker(a) || a.Add?)
    ensures Next(s, a).control == Ready && Next(s, a).paused
    ensures task in Next(s, a).executed || Underway(Next(s, a).workers, task) ==> task in s.executed || Underway(s.workers, task)
  {
    PausedStartsNothing(s);
    if Underway(Next(s, a).workers, task) {
      var w :| w in Next(s, a).workers && Next(s, a).workers[w] == Executing(task);
      assert w in s.workers && s.workers[w] == Executing(task);
    }
  }

  /** From then on, until the controller is called again, only tasks are finished that were being executed already. */
  lemma {:induction false} PausedFinishesOnly(s: State, run: seq<Action>, task: TaskId)
    requires Invariant(s) && s.control == Ready && s.paused && Undisturbed(s, run) && Legal(s, run)
    ensures After(s, run).control == Ready && After(s, run).paused
    ensures task in After(s, run).executed || Underway(After(s, run).workers, task) ==> task in s.executed || Underway(s.workers, task)
    decreases |run|
  {
    if run != [] {
      NextInvariant(s, run[0]);
      PausedStep(s, run[0], task);
      PausedFinishesOnly(Next(s, run[0]), run[1..], task);
    }
  }

  // ---------- priorities ----------

  /** The task waits with this priority. */
  predicate Waits(s: State, task: TaskId, priority: int) { User(task, priority) in s.queue }

  lemma NextWaits(s: State, a: Action, task: TaskId, priority: int)
    requires Invariant(s) && Enabled(s, a) && task in s.added
    ensures Waits(s, task, priority) ==> Waits(Next(s, a), task, priority) || !Queued(Next(s, a).queue, task)
    ensures !Queued(s.queue, task) ==> !Queued(Next(s, a).queue, task)
    ensures task in Next(s, a).added
  {
    NotQueuedAgain(s, a, {task});
    if Waits(s, task, priority) {
      assert User(task, priority).User?;
      if a.Pop? && a.item == User(task, priority) {
        assert s.queue[a.item] == 1;
        forall i | i in Next(s, a).queue && i.User? ensures i.task != task { assert i in s.queue; }
      } else if a.Continue? {
        ResumeQueue(s, a.newId);
      }
    }
  }

  /** A task that was added waits with its priority until it is taken, and not again afterwards. */
  lemma {:induction false} RunWaits(s: State, run: seq<Action>, task: TaskId, priority: int)
    requires Invariant(s) && Legal(s, run) && task in s.added && (Waits(s, task, priority) || !Queued(s.queue, task))
    ensures Waits(After(s, run), task, priority) || !Queued(After(s, run).queue, task)
    decreases |run|
  {
    if run != [] {
      NextInvariant(s, run[0]);
      NextWaits(s, run[0], task, priority);
      RunWaits(Next(s, run[0]), run[1..], task, priority);
    }
  }

  lemma AddWaits(s: State, task: TaskId, priority: int)
    requires Enabled(s, Add(task, priority))
    ensures Waits(Next(s, Add(task, priority)), task, priority) && task in Next(s, Add(task, priority)).added
  {}

  lemma {:induction false} AddedNowWaits(s: State, run: seq<Action>, task: TaskId, priority: int)
    requires Invariant(s) && Legal(s, run) && run != [] && run[0] == Add(task, priority)
    ensures Waits(After(s, run), task, priority) || !Queued(After(s, run).queue, task)
  {
    NextInvariant(s, run[0]);
    AddWaits(s, task, priority);
    RunWaits(Next(s, run[0]), run[1..], task, priority);
  }

  lemma {:induction false} LegalSplit(s: State, run: seq<Action>, i: nat)
    requires Legal(s, run) && i <= |run|
    ensures Legal(s, run[..i]) && Legal(After(s, run[..i]), run[i..]) && After(s, run) == After(After(s, run[..i]), run[i..])
    decreases |run|
  {
    if i == 0 {
      assert run[..0] == [] && run[0..] == run;
    } else {
      LegalSplit(Next(s, run[0]), run[1..], i - 1);
      assert run[..i][1..] == run[1..][..i - 1] && run[1..][i - 1..] == run[i..];
    }
  }

  lemma {:induction false} AddedWaits(s: State, run: seq<Action>, i: nat, task: TaskId, priority: int)
    requires Invariant(s) && Legal(s, run) && i < |run| && run[i] == Add(task, priority)
    ensures Waits(After(s, run), task, priority) || !Queued(After(s, run).queue, task)
  {
    LegalSplit(s, run, i);
    RunInvariant(s, run[..i]);
    AddedNowWaits(After(s, run[..i]), run[i..], task, priority);
  }

  /** In any run, as long as a task waits no task that was added with a lower priority is taken; nor is a
      stop apple, whereas a pause apple comes before all tasks. */
  lemma HigherFirst(s: State, run: seq<Action>, i: nat, j: nat, high: TaskId, low: TaskId, p: int, q: int)
    requires Invariant(s) && Legal(s, run) && i < |run| && j < |run| && run[i] == Add(high, p) && run[j] == Add(low, q) && p > q
    requires Queued(After(s, run).queue, high)
    ensures forall w, item: Item :: item.User? && item.task == low ==> !Enabled(After(s, run), Pop(w, item))
    ensures forall w :: !Enabled(After(s, run), Pop(w, StopApple))
    ensures PauseApple in After(s, run).queue ==> forall w, item: Item :: item.User? ==> !Enabled(After(s, run), Pop(w, item))
  {
    var end := After(s, run);
    RunInvariant(s, run);
    AddedWaits(s, run, i, high, p);
    AddedWaits(s, run, j, low, q);
    assert User(high, p) in end.queue && LOW <= p;
    forall w, item: Item | item.User? && item.task == low ensures !Enabled(end, Pop(w, item)) {
      if item in end.queue {
        assert Queued(end.queue, low);
        assert item == User(low, q);
      }
    }
  }
}
