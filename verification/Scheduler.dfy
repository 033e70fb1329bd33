/** The scheduler (projects/sched/src/sched.c) with its tasks (projects/sched/src/task.c). A task
    is an element of the heap: its id and its time to execute. */
module Scheduler {
  import opened Wrappers
  import opened Vectors
  import opened Heaps

  // ---------- where the tasks are ----------

  /** The tasks in the heap, the one that is running, those destroyed, and the next fresh id. */
  datatype Account = Places(queue: multiset<Elem>, running: Option<nat>, destroyed: seq<nat>, next: nat)

  predicate Queued(queue: multiset<Elem>, id: nat) { exists e :: e in queue && e.id == id }

  predicate Once(destroyed: seq<nat>) { forall i, j :: 0 <= i < j < |destroyed| ==> destroyed[i] != destroyed[j] }

  /** A queued task is queued once and is nowhere else. */
  ghost predicate OnlyQueued(a: Account, e: Elem) {
    && a.queue[e] == 1 && (forall f :: f in a.queue && f.id == e.id ==> f == e)
    && e.id < a.next && e.id !in a.destroyed && a.running != Some(e.id)
  }

  predicate SomewhereIn(a: Account, id: nat) { Queued(a.queue, id) || a.running == Some(id) || id in a.destroyed }

  /** Every task ever added is in one place and only one. */
  ghost predicate Balanced(a: Account) {
    && (forall e {:trigger OnlyQueued(a, e)} :: e in a.queue ==> OnlyQueued(a, e))
    && (a.running.Some? ==> a.running.value < a.next && a.running.value !in a.destroyed)
    && Once(a.destroyed) && (forall id :: id in a.destroyed ==> id < a.next)
    && (forall id {:trigger SomewhereIn(a, id)} :: 0 <= id < a.next ==> SomewhereIn(a, id))
  }

  lemma ExactlyOnePlace(a: Account, id: nat)
    requires Balanced(a) && id < a.next
    ensures Queued(a.queue, id) ==> a.running != Some(id) && id !in a.destroyed
    ensures a.running == Some(id) ==> !Queued(a.queue, id) && id !in a.destroyed
    ensures id in a.destroyed ==> !Queued(a.queue, id) && a.running != Some(id) && multiset(a.destroyed)[id] == 1
    ensures Queued(a.queue, id) || a.running == Some(id) || id in a.destroyed
  {
    assert SomewhereIn(a, id);
    OnceIsOne(a.destroyed, id);
    if Queued(a.queue, id) {
      var e :| e in a.queue && e.id == id;
      assert OnlyQueued(a, e);
    }
  }

  lemma {:induction false} OnceIsOne(destroyed: seq<nat>, id: nat)
    requires Once(destroyed)
    ensures multiset(destroyed)[id] == if id in destroyed then 1 else 0
    decreases |destroyed|
  {
    if destroyed != [] {
      var front, last := destroyed[..|destroyed| - 1], destroyed[|destroyed| - 1];
      assert destroyed == front + [last];
      OnceIsOne(front, id);
    }
  }

  /** A task that was nowhere, or was running, comes into the queue. */
  lemma PutInBalances(a: Account, a': Account, x: Elem)
    requires Balanced(a) && a'.queue == a.queue + multiset{x} && a'.destroyed == a.destroyed
    requires || (x.id == a.next && a'.next == a.next + 1 && a'.running == a.running)
             || (a.running == Some(x.id) && a'.running == None && a'.next == a.next)
    ensures Balanced(a')
  {
    forall e | e in a.queue ensures e.id != x.id && e in a'.queue {
      assert OnlyQueued(a, e);
    }
    assert a'.queue[x] == 1;
    forall e | e in a'.queue ensures OnlyQueued(a', e) {
      if e != x { assert OnlyQueued(a, e) && a'.queue[e] == a.queue[e]; }
    }
    forall id | 0 <= id < a'.next ensures SomewhereIn(a', id) {
      if id == x.id {
        assert x in a'.queue;
      } else {
        assert SomewhereIn(a, id);
      }
    }
  }

  /** A queued task leaves the queue, to run or to be destroyed. */
  lemma TakeOutBalances(a: Account, a': Account, x: Elem)
    requires Balanced(a) && a'.queue + multiset{x} == a.queue && a'.next == a.next
    requires || (a.running == None && a'.running == Some(x.id) && a'.destroyed == a.destroyed)
             || (a'.running == a.running && a'.destroyed == a.destroyed + [x.id])
    ensures Balanced(a')
  {
    assert x in a.queue && OnlyQueued(a, x);
    assert a.queue[x] == a'.queue[x] + 1;
    forall e | e in a'.queue ensures OnlyQueued(a', e) {
      assert e != x;
      assert a.queue[e] == a'.queue[e];
      assert e in a.queue && OnlyQueued(a, e);
      forall f | f in a'.queue && f.id == e.id ensures f == e {
        assert f in a.queue;
      }
    }
    forall id | 0 <= id < a'.next ensures SomewhereIn(a', id) {
      assert SomewhereIn(a, id);
      if id != x.id && Queued(a.queue, id) {
        var e :| e in a.queue && e.id == id;
        assert a.queue[e] == a'.queue[e];
      }
    }
  }

  lemma DestroyRunningBalances(a: Account)
    requires Balanced(a) && a.running.Some?
    ensures Balanced(a.(running := None, destroyed := a.destroyed + [a.running.value]))
  {
    var a' := a.(running := None, destroyed := a.destroyed + [a.running.value]);
    forall e | e in a'.queue ensures OnlyQueued(a', e) {
      assert OnlyQueued(a, e);
    }
    forall id | 0 <= id < a'.next ensures SomewhereIn(a', id) {
      assert SomewhereIn(a, id);
    }
  }

  // ---------- the order of the tasks ----------

  /** TaskCmp by the time to execute. */
  function TaskCmp(a: Elem, b: Elem): int {
    if a.value < b.value then -1 else if a.value > b.value then 1 else 0
  }

  /** The heap has the largest first, so the wrapper swaps its arguments. */
  function WrapperTaskCmp(a: Elem, b: Elem): int { TaskCmp(b, a) }

  lemma WrapperOrders()
    ensures Orders(WrapperTaskCmp)
    ensures forall a, b :: Leq(WrapperTaskCmp, a, b) <==> b.value <= a.value
  {
    assert forall a, b :: Leq(WrapperTaskCmp, a, b) <==> b.value <= a.value;
  }

  function TaskIsMatch(task: Elem, id: nat): int { if task.id == id then 1 else 0 }

  // ---------- the scheduler ----------

  datatype Status = SUCCESS | PAUSED | FAILED_TASKS_EMPTY_SCHED | FAILED_TASKS_NON_EMPTY_SCHED

  /** One run of a task: when, what was left in the heap and what was in it afterwards, what the task
      returned, the clock reading after that, and whether it had the scheduler stop. */
  datatype Record = Record(task: Elem, at: int, waiting: multiset<Elem>, after: multiset<Elem>, result: int, back: int, stopped: bool)

  /** The heap before the run and after it: a task that returned n > 0 is due again n after the clock reading. */
  function Found(r: Record): multiset<Elem> { r.waiting + multiset{r.task} }

  function Leaves(r: Record): multiset<Elem> { DueAgain(r.after, r.task.id, r.result, r.back) }

  /** The record tells of a turn that found the heap `before` at time t0 and left `after` at t1. */
  predicate Tells(r: Record, before: multiset<Elem>, t0: int, after: multiset<Elem>, t1: int, stopFlag: bool) {
    match r
    case Record(task, at, waiting, middle, result, back, stopped) =>
      && before == waiting + multiset{task} && after == DueAgain(middle, task.id, result, back)
      && t0 <= at <= back == t1 && stopped == stopFlag
  }

  function DueAgain(queue: multiset<Elem>, id: nat, result: int, at: int): multiset<Elem> {
    if result > 0 then queue + multiset{Elem(id, at + result)} else queue
  }

  /** Runs one after the other, none after one that had the scheduler stop. */
  predicate Follows(before: multiset<Elem>, ran: seq<Record>, after: multiset<Elem>, stopped: bool) {
    if ran == [] then after == before && !stopped
    else
      && Found(ran[0]) == before && Leaves(ran[|ran| - 1]) == after && ran[|ran| - 1].stopped == stopped
      && forall i :: 0 <= i < |ran| - 1 ==> !ran[i].stopped && Leaves(ran[i]) == Found(ran[i + 1]) && ran[i].back <= ran[i + 1].at
  }

  lemma OneMoreFollows(before: multiset<Elem>, ran: seq<Record>, middle: multiset<Elem>, r: Record)
    requires Follows(before, ran, middle, false) && Found(r) == middle && (ran != [] ==> ran[|ran| - 1].back <= r.at)
    ensures Follows(before, ran + [r], Leaves(r), r.stopped)
  {
    var more := ran + [r];
    forall i | 0 <= i < |more| - 1 ensures !more[i].stopped && Leaves(more[i]) == Found(more[i + 1]) && more[i].back <= more[i + 1].at {
      if i < |ran| - 1 { assert more[i] == ran[i] && more[i + 1] == ran[i + 1]; }
    }
  }

  /** It was due and no task in the heap was due earlier. */
  predicate InOrder(r: Record) {
    r.task.value <= r.at && forall e :: e in r.waiting ==> r.task.value <= e.value
  }

  predicate AllInOrder(records: seq<Record>) { forall i :: 0 <= i < |records| ==> InOrder(records[i]) }

  predicate SomeFailed(records: seq<Record>) { exists i :: 0 <= i < |records| && records[i].result < 0 }

  class Sched {
    const heap: Heap
    var stopFlag: bool
    var next: nat
    var now: int
    ghost var running: Option<nat>
    ghost var destroyed: seq<nat>
    ghost var records: seq<Record>

    ghost function Account(): Account
      requires heap.vector.Valid()
      reads this, heap.vector, heap.vector.buffer
    {
      Places(multiset(heap.Contents()), running, destroyed, next)
    }

    ghost predicate Valid()
      reads this, heap.vector, heap.vector.buffer
    {
      heap.Valid() && heap.compare == WrapperTaskCmp && Balanced(Account()) && AllInOrder(records)
    }

    constructor ()
      ensures Valid() && fresh(heap) && fresh(heap.vector) && fresh(heap.vector.buffer)
      ensures heap.Contents() == [] && running == None && destroyed == [] && records == [] && next == 0 && !stopFlag
    {
      WrapperOrders();
      heap := new Heap(WrapperTaskCmp);
      stopFlag, next, now, running, destroyed, records := false, 0, 0, None, [], [];
    }

    /** time(NULL): the clock does not go back. */
    method Time() returns (t: int)
      modifies this`now
      ensures t == now >= old(now)
    {
      var passed: int := *;
      if passed > 0 {
        now := now + passed;
      }
      t := now;
    }

    /** sleep: what it returns is what is left to sleep. */
    method Sleep(seconds: nat) returns (left: nat)
      modifies this`now
      ensures left <= seconds && now >= old(now) + (seconds - left)
    {
      var slept: int := *;
      left := if slept <= 0 then seconds else if slept < seconds then seconds - slept else 0;
      if slept > 0 {
        now := now + slept;
      }
    }

    method SchedAdd(interval: nat) returns (id: nat)
      requires Valid()
      modifies this`next, this`now, heap.vector, heap.vector.buffer
      ensures Valid() && (heap.vector.buffer == old(heap.vector.buffer) || fresh(heap.vector.buffer))
      ensures id == old(next) && next == id + 1 && now >= old(now)
      ensures multiset(heap.Contents()) == multiset(old(heap.Contents())) + multiset{Elem(id, now + interval)}
    {
      ghost var a := Account();
      id := next;
      var t := Time();
      heap.HeapPush(Elem(id, t + interval));
      next := next + 1;
      PutInBalances(a, Account(), Elem(id, t + interval));
    }

    method SchedStop()
      modifies this`stopFlag
      ensures stopFlag
    {
      stopFlag := true;
    }

    /** Every queued task is destroyed; a running one, that may have called it, is not. */
    method SchedClear()
      requires Valid()
      modifies this`destroyed, heap.vector, heap.vector.buffer
      ensures Valid() && (heap.vector.buffer == old(heap.vector.buffer) || fresh(heap.vector.buffer))
      ensures heap.Contents() == [] && old(destroyed) <= destroyed
    {
      while heap.vector.size > 0
        invariant Valid() && (heap.vector.buffer == old(heap.vector.buffer) || fresh(heap.vector.buffer))
        invariant old(destroyed) <= destroyed
        decreases heap.vector.size
      {
        ghost var a, size := Account(), |heap.Contents()|;
        var task := heap.HeapPeek();
        heap.HeapPop();
        destroyed := destroyed + [task.id];
        TakeOutBalances(a, Account(), task);
        assert |multiset(heap.Contents())| + 1 == size;
      }
    }

    /** HeapRemove takes 0 for a match where TaskIsMatch answers 1: another task than the one
        asked for is destroyed, and 1 is answered exactly when no other one is queued. */
    method SchedRemove(id: nat) returns (status: int, ghost removed: Option<Elem>)
      requires Valid()
      modifies this`destroyed, heap.vector, heap.vector.buffer
      ensures Valid() && (heap.vector.buffer == old(heap.vector.buffer) || fresh(heap.vector.buffer))
      ensures status == 1 <==> forall k :: 0 <= k < |old(heap.Contents())| ==> old(heap.Contents())[k].id == id
      ensures status == 1 ==> heap.Contents() == old(heap.Contents()) && destroyed == old(destroyed)
      ensures status != 1 ==> status == 0 && removed.Some? && removed.value.id != id
      ensures status == 0 ==> removed.Some? && Without(old(heap.Contents()), removed.value, heap.Contents())
      ensures status == 0 ==> removed.Some? && destroyed == old(destroyed) + [removed.value.id]
    {
      ghost var a := Account();
      var isMatch := (task: Elem) => TaskIsMatch(task, id);
      var task := heap.HeapRemove(isMatch);
      removed := task;
      if task.None? {
        return 1, task;
      }
      destroyed := destroyed + [task.value.id];
      TakeOutBalances(a, Account(), task.value);
      return 0, task;
    }

    /** The operation of a task may add tasks, clear and stop the scheduler, and returns anything. */
    method TaskRun() returns (result: int)
      requires Valid()
      modifies this`stopFlag, this`next, this`now, this`destroyed, heap.vector, heap.vector.buffer
      ensures Valid() && (heap.vector.buffer == old(heap.vector.buffer) || fresh(heap.vector.buffer))
      ensures now >= old(now) && next >= old(next) && old(destroyed) <= destroyed
    {
      var calls: nat := *;
      while calls > 0
        invariant Valid() && (heap.vector.buffer == old(heap.vector.buffer) || fresh(heap.vector.buffer))
        invariant now >= old(now) && next >= old(next) && old(destroyed) <= destroyed
      {
        var call: int := *;
        if call == 0 {
          var interval: nat := *;
          var id := SchedAdd(interval);
        } else if call == 1 {
          SchedClear();
        } else {
          SchedStop();
        }
        calls := calls - 1;
      }
      result := *;
    }

    /** The task at the root leaves the heap; it is one of those due first. */
    method TakeEarliest() returns (task: Elem)
      requires Valid() && running == None && heap.vector.size > 0
      modifies this`running, heap.vector, heap.vector.buffer
      ensures Valid() && (heap.vector.buffer == old(heap.vector.buffer) || fresh(heap.vector.buffer))
      ensures running == Some(task.id) && Without(old(heap.Contents()), task, heap.Contents())
      ensures forall e :: e in heap.Contents() ==> task.value <= e.value
    {
      ghost var a, before := Account(), heap.Contents();
      task := heap.HeapPeek();
      WrapperOrders();
      heap.HeapPop();
      running := Some(task.id);
      TakeOutBalances(a, Account(), task);
      forall e | e in heap.Contents() ensures task.value <= e.value {
        assert e in multiset(before) && e in before;
        assert Leq(WrapperTaskCmp, e, task);
      }
    }

    /** Sleeps until the task is due, however often the sleep is interrupted. */
    method WaitUntil(due: int)
      modifies this`now
      ensures now >= due && now >= old(now)
    {
      var t := Time();
      var toSleep: nat := if due - t > 0 then due - t else 0;
      var interruptions: nat := *;
      while toSleep != 0
        invariant now >= old(now) && now + toSleep >= due
        decreases interruptions, toSleep
      {
        var left := Sleep(toSleep);
        if interruptions == 0 && left > 0 {
          now := now + left;
          left := 0;
        } else if interruptions > 0 {
          interruptions := interruptions - 1;
        }
        toSleep := left;
      }
    }

    /** The first `turns` turns of the loop of SchedRun; None when it has not ended by then. */
    method SchedRun(turns: nat) returns (status: Option<Status>, ghost ran: seq<Record>)
      requires Valid() && running == None
      modifies this, heap.vector, heap.vector.buffer
      ensures Valid() && running == None && (heap.vector.buffer == old(heap.vector.buffer) || fresh(heap.vector.buffer))
      ensures records == old(records) + ran && now >= old(now) && next >= old(next) && old(destroyed) <= destroyed
      ensures status.Some? <==> (stopFlag || heap.Contents() == [])
      ensures |ran| <= turns && (status.None? ==> |ran| == turns)
      ensures Follows(multiset(old(heap.Contents())), ran, multiset(heap.Contents()), stopFlag)
      ensures status.Some? ==> (status.value.FAILED_TASKS_EMPTY_SCHED? || status.value.FAILED_TASKS_NON_EMPTY_SCHED? <==> SomeFailed(ran))
      ensures status.Some? ==> (status.value.SUCCESS? || status.value.FAILED_TASKS_EMPTY_SCHED? <==> heap.Contents() == [])
    {
      var hadFail := false;
      ghost var before, earlier := multiset(heap.Contents()), records;
      stopFlag := false;
      ran := [];
      var n := 0;
      while !stopFlag && heap.vector.size > 0
        invariant Valid() && running == None && (heap.vector.buffer == old(heap.vector.buffer) || fresh(heap.vector.buffer))
        invariant records == earlier + ran && (hadFail <==> SomeFailed(ran)) && n == |ran| <= turns
        invariant Follows(before, ran, multiset(heap.Contents()), stopFlag) && (ran != [] ==> ran[|ran| - 1].back <= now)
        invariant now >= old(now) && next >= old(next) && old(destroyed) <= destroyed
        decreases turns - n
      {
        if n == turns {
          return None, ran;
        }
        n := n + 1;
        var failed;
        ghost var record;
        ghost var middle, t0 := multiset(heap.Contents()), now;
        failed, record := Turn();
        hadFail := hadFail || failed;
        SomeFailedMore(ran, record);
        OneMoreTold(before, ran, middle, record, t0, multiset(heap.Contents()), now, stopFlag);
        OneMore(earlier, ran, record);
        ran := ran + [record];
      }
      status := Some(ComputeExitStatus(hadFail));
    }

    method DestroyRunning(task: nat)
      requires Valid() && running == Some(task)
      modifies this`running, this`destroyed
      ensures Valid() && running == None && destroyed == old(destroyed) + [task]
    {
      DestroyRunningBalances(Account());
      running, destroyed := None, destroyed + [task];
    }

    /** The task is due again `interval` seconds from now. */
    method Requeue(task: nat, interval: nat)
      requires Valid() && running == Some(task)
      modifies this`now, this`running, heap.vector, heap.vector.buffer
      ensures Valid() && running == None && (heap.vector.buffer == old(heap.vector.buffer) || fresh(heap.vector.buffer))
      ensures now >= old(now)
      ensures multiset(heap.Contents()) == multiset(old(heap.Contents())) + multiset{Elem(task, now + interval)}
    {
      ghost var a := Account();
      var t := Time();
      heap.HeapPush(Elem(task, t + interval));
      running := None;
      PutInBalances(a, Account(), Elem(task, t + interval));
    }

    /** The second half of a turn: the task is destroyed or queued again. */
    method Settle(task: nat, result: int)
      requires Valid() && running == Some(task)
      modifies this`now, this`running, this`destroyed, heap.vector, heap.vector.buffer
      ensures Valid() && running == None && (heap.vector.buffer == old(heap.vector.buffer) || fresh(heap.vector.buffer))
      ensures now >= old(now) && destroyed == if result <= 0 then old(destroyed) + [task] else old(destroyed)
      ensures multiset(heap.Contents()) == DueAgain(multiset(old(heap.Contents())), task, result, now)
    {
      if result <= 0 {
        DestroyRunning(task);
      } else {
        Requeue(task, result);
      }
    }

    /** The first half of a turn: a task due first is taken out, waited for and run. */
    method RunEarliest() returns (task: nat, result: int, ghost record: Record)
      requires Valid() && running == None && heap.vector.size > 0
      modifies this, heap.vector, heap.vector.buffer
      ensures Valid() && (heap.vector.buffer == old(heap.vector.buffer) || fresh(heap.vector.buffer))
      ensures running == Some(task) && records == old(records)
      ensures InOrder(record) && record.result == result && record.task.id == task
      ensures Found(record) == multiset(old(heap.Contents())) && record.after == multiset(heap.Contents()) && old(now) <= record.at <= now
      ensures now >= old(now) && next >= old(next) && old(destroyed) <= destroyed
    {
      var earliest := TakeEarliest();
      ghost var waiting := multiset(heap.Contents());
      WaitUntil(earliest.value);
      ghost var at := now;
      result := TaskRun();
      task, record := earliest.id, Record(earliest, at, waiting, multiset(heap.Contents()), result, now, stopFlag);
    }

    /** One turn of the loop of SchedRun. */
    method Turn() returns (failed: bool, ghost record: Record)
      requires Valid() && running == None && heap.vector.size > 0
      modifies this, heap.vector, heap.vector.buffer
      ensures Valid() && running == None && (heap.vector.buffer == old(heap.vector.buffer) || fresh(heap.vector.buffer))
      ensures records == old(records) + [record] && (failed <==> record.result < 0)
      ensures now >= old(now) && next >= old(next) && old(destroyed) <= destroyed
      ensures record.result <= 0 ==> record.task.id in destroyed
      ensures Tells(record, multiset(old(heap.Contents())), old(now), multiset(heap.Contents()), now, stopFlag)
    {
      var task, result;
      task, result, record := RunEarliest();
      failed := result < 0;
      record := Conclude(task, result, record);
    }

    /** The end of a turn, and its record. */
    method Conclude(task: nat, result: int, ghost r: Record) returns (ghost record: Record)
      requires Valid() && running == Some(task) && InOrder(r) && r.result == result && r.task.id == task
      requires r.after == multiset(heap.Contents()) && r.at <= now
      modifies this`now, this`running, this`destroyed, this`records, heap.vector, heap.vector.buffer
      ensures Valid() && running == None && (heap.vector.buffer == old(heap.vector.buffer) || fresh(heap.vector.buffer))
      ensures records == old(records) + [record] && record.result == result && record.task.id == task
      ensures now >= old(now) && destroyed == if result <= 0 then old(destroyed) + [task] else old(destroyed)
      ensures Tells(record, Found(r), r.at, multiset(heap.Contents()), now, stopFlag)
    {
      Settle(task, result);
      record := r.(back := now, stopped := stopFlag);
      OneMoreInOrder(records, record);
      records := records + [record];
    }

    function ComputeExitStatus(hadFail: bool): Status
      reads heap.vector
    {
      if hadFail then
        if heap.vector.size == 0 then FAILED_TASKS_EMPTY_SCHED else FAILED_TASKS_NON_EMPTY_SCHED
      else
        if heap.vector.size == 0 then SUCCESS else PAUSED
    }
  }

  lemma OneMoreTold(before: multiset<Elem>, ran: seq<Record>, middle: multiset<Elem>, r: Record, t0: int, after: multiset<Elem>, t1: int, stop: bool)
    requires Follows(before, ran, middle, false) && Tells(r, middle, t0, after, t1, stop) && (ran != [] ==> ran[|ran| - 1].back <= t0)
    ensures Follows(before, ran + [r], after, stop) && (ran + [r])[|ran|].back == t1
  {
    OneMoreFollows(before, ran, middle, r);
  }

  lemma OneMore(earlier: seq<Record>, ran: seq<Record>, r: Record)
    ensures earlier + (ran + [r]) == earlier + ran + [r]
  {}

  lemma OneMoreInOrder(records: seq<Record>, r: Record)
    requires AllInOrder(records) && InOrder(r)
    ensures AllInOrder(records + [r])
  {}

  lemma SomeFailedMore(records: seq<Record>, r: Record)
    ensures SomeFailed(records + [r]) <==> SomeFailed(records) || r.result < 0
  {
    if SomeFailed(records) {
      var i :| 0 <= i < |records| && records[i].result < 0;
      assert (records + [r])[i].result < 0;
    } else if r.result < 0 {
      assert (records + [r])[|records|].result < 0;
    }
  }
}
