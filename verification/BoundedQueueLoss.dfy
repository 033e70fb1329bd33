/** When FSQEnqueue wrongly finds that it has failed (system_programming/src/producer_consumer/fsq.c):
    after giving up the lock it compares the tail with a node that may have been freed and handed out
    again. */
module BoundedQueueLoss {
  import opened ListMemory
  import opened BoundedQueue

  /** An enqueuer has inserted its item and still remembers the node it went into. */
  predicate Remembers(p: Place, address: nat) {
    (p.EnqInserted? || p.EnqCheck?) && p.where == address
  }

  /** malloc hands out a node that some enqueuer still remembers. */
  predicate Reuses(s: State, m: Move) {
    Can(s, m) && s.at[m.thread].EnqLocked? && exists t :: 0 <= t < |s.at| && Remembers(s.at[t], m.address)
  }

  predicate NoReuse(s: State, moves: seq<Move>)
    requires Runs(s, moves)
    decreases |moves|
  {
    moves == [] || (!Reuses(s, moves[0]) && NoReuse(Do(s, moves[0]), moves[1..]))
  }

  /** The node that a writer is about to make the tail. */
  function Coming(w: Place): nat { if w.EnqAlloced? || w.EnqHooked? || w.EnqLinked? then w.node else NULL }

  predicate NobodyRemembers(at: seq<Place>, a: nat) { forall t :: 0 <= t < |at| ==> !Remembers(at[t], a) }

  ghost predicate Unconfused(s: State) {
    && NobodyRemembers(s.at, s.list.tail)
    && (Coming(WriterAt(s)) != NULL ==> NobodyRemembers(s.at, Coming(WriterAt(s))))
  }

  lemma UnconfusedKeptByInsert(s: State, m: Move)
    requires Inv(s) && Unconfused(s) && Can(s, m) && !Reuses(s, m) && Inserts(s.at[m.thread])
    ensures Unconfused(Do(s, m)) && Do(s, m).lost == s.lost
  {
    InsertSteps(s, m);
    HoldersAfter(s, Do(s, m), m.thread);
    LocksAgree(s);
    if s.at[m.thread].EnqLinked? {
      TailMoveShape(s.list, s.chain, Items(s), WriterAt(s), ReaderAt(s));
    }
  }

  predicate NoNewMemory(p: Place, p': Place) { p'.EnqInserted? || p'.EnqCheck? ==> (p.EnqInserted? || p.EnqCheck?) && p'.where == p.where }

  lemma StillUnconfused(s: State, s': State, t: nat)
    requires Unconfused(s) && Stepped(s, s', t) && NoNewMemory(s.at[t], s'.at[t])
    requires s'.list.tail == s.list.tail || NobodyRemembers(s.at, s'.list.tail)
    requires Coming(WriterAt(s')) == NULL || Coming(WriterAt(s')) == Coming(WriterAt(s))
    ensures Unconfused(s')
  {
    forall u, a | 0 <= u < |s.at| && !Remembers(s.at[u], a) ensures !Remembers(s'.at[u], a) {}
  }

  lemma EnqueueQuiet(s: State, m: Move)
    requires Can(s, m) && Enqueues(s.at[m.thread]) && !Inserts(s.at[m.thread]) && m.thread < |Do(s, m).at|
    ensures Do(s, m).list == s.list && NoNewMemory(s.at[m.thread], Do(s, m).at[m.thread])
    ensures !(s.at[m.thread].EnqCheck? && s.list.tail == s.at[m.thread].where) ==> Do(s, m).lost == s.lost
  {}

  lemma UnconfusedKeptByEnqueue(s: State, m: Move)
    requires Inv(s) && Unconfused(s) && Can(s, m) && Enqueues(s.at[m.thread]) && !Inserts(s.at[m.thread])
    ensures Unconfused(Do(s, m)) && Do(s, m).lost == s.lost
  {
    EnqueueSteps(s, m);
    EnqueueQuiet(s, m);
    HoldersAfter(s, Do(s, m), m.thread);
    assert !Remembers(s.at[m.thread], s.list.tail);
    StillUnconfused(s, Do(s, m), m.thread);
  }

  lemma DequeueQuiet(s: State, m: Move)
    requires Can(s, m) && !Enqueues(s.at[m.thread]) && m.thread < |Do(s, m).at|
    ensures Do(s, m).lost == s.lost && NoNewMemory(s.at[m.thread], Do(s, m).at[m.thread])
    ensures Coming(s.at[m.thread]) == Coming(Do(s, m).at[m.thread]) == NULL
    ensures !s.at[m.thread].DeqFreed? ==> Do(s, m).list.tail == s.list.tail
  {}

  /** The tail goes back to the head only when nobody remembers a node. */
  lemma UnconfusedKeptByDequeue(s: State, m: Move)
    requires Inv(s) && Unconfused(s) && Can(s, m) && !Enqueues(s.at[m.thread])
    ensures Unconfused(Do(s, m)) && Do(s, m).lost == s.lost
  {
    Steps(s, m);
    DequeueQuiet(s, m);
    HoldersAfter(s, Do(s, m), m.thread);
    if s.at[m.thread].DeqFreed? { TailBackForgotten(s, m); }
    StillUnconfused(s, Do(s, m), m.thread);
  }

  lemma TailBackForgotten(s: State, m: Move)
    requires Inv(s) && Can(s, m) && s.at[m.thread].DeqFreed?
    ensures Do(s, m).list.tail == s.list.tail || NobodyRemembers(s.at, Do(s, m).list.tail)
  {
    LocksAgree(s);
    assert ReaderAt(s) == s.at[m.thread];
    TailBackShape(s.list, s.chain, Items(s), WriterAt(s), ReaderAt(s));
    if Items(s) == [] { EmptyForgets(s); }
  }

  lemma EmptyForgets(s: State)
    requires Counts(s) && Length(s) == 0
    ensures forall a :: NobodyRemembers(s.at, a)
  {
    forall t, a | 0 <= t < |s.at| ensures !Remembers(s.at[t], a) {
      TotalAtLeast(s.at, t, t, Filled);
    }
  }

  lemma UnconfusedKept(s: State, m: Move)
    requires Inv(s) && Unconfused(s) && Can(s, m) && !Reuses(s, m)
    ensures Unconfused(Do(s, m)) && Do(s, m).lost == s.lost
  {
    var p := s.at[m.thread];
    if Inserts(p) {
      UnconfusedKeptByInsert(s, m);
    } else if Enqueues(p) {
      UnconfusedKeptByEnqueue(s, m);
    } else {
      UnconfusedKeptByDequeue(s, m);
    }
  }

  lemma {:induction false} NothingLostFrom(s: State, moves: seq<Move>)
    requires Inv(s) && Unconfused(s) && Runs(s, moves) && NoReuse(s, moves)
    ensures After(s, moves).lost == s.lost
    decreases |moves|
  {
    if moves != [] {
      StepInv(s, moves[0]);
      UnconfusedKept(s, moves[0]);
      NothingLostFrom(Do(s, moves[0]), moves[1..]);
    }
  }

  /** As long as no remembered node is handed out again nothing is lost and the list is bounded. */
  lemma NothingLost(capacity: nat, threads: nat, dummy: nat, moves: seq<Move>)
    requires dummy != NULL && Runs(Initial(capacity, threads, dummy), moves) && NoReuse(Initial(capacity, threads, dummy), moves)
    ensures After(Initial(capacity, threads, dummy), moves).lost == 0
    ensures Length(After(Initial(capacity, threads, dummy), moves)) <= capacity
  {
    var s := Initial(capacity, threads, dummy);
    InitialInv(capacity, threads, dummy);
    NothingLostFrom(s, moves);
    RunInv(s, moves);
  }

  // ---------- every reuse can lose ----------

  lemma {:induction false} AfterAppend(s: State, moves: seq<Move>, m: Move)
    requires Runs(s, moves) && Can(After(s, moves), m)
    ensures Runs(s, moves + [m]) && After(s, moves + [m]) == Do(After(s, moves), m)
    decreases |moves|
  {
    if moves == [] {
      assert ([] + [m])[1..] == [] && Runs(Do(s, m), []);
    } else {
      AfterAppend(Do(s, moves[0]), moves[1..], m);
      assert (moves + [m])[1..] == moves[1..] + [m];
    }
  }

  /** `s'` can be reached from `s`. */
  ghost predicate Leads(s: State, s': State) { exists moves :: Runs(s, moves) && After(s, moves) == s' }

  lemma LeadsNowhere(s: State)
    ensures Leads(s, s)
  {
    assert Runs(s, []) && After(s, []) == s;
  }

  lemma LeadsOn(s: State, s': State, m: Move)
    requires Leads(s, s') && Can(s', m)
    ensures Leads(s, Do(s', m))
  {
    var moves :| Runs(s, moves) && After(s, moves) == s';
    AfterAppend(s, moves, m);
    var more := moves + [m];
    assert Runs(s, more) && After(s, more) == Do(s', m);
  }

  lemma ReachableLeads(s: State, s': State)
    requires Reachable(s) && Leads(s, s')
    ensures Reachable(s')
  {
    var moves :| Runs(s, moves) && After(s, moves) == s';
    ReachableAfter(s, moves);
  }

  lemma {:induction false} ReachableAfter(s: State, moves: seq<Move>)
    requires Reachable(s) && Runs(s, moves)
    ensures Reachable(After(s, moves))
    decreases |moves|
  {
    if moves != [] {
      ReachableStep(s, moves[0]);
      ReachableAfter(Do(s, moves[0]), moves[1..]);
    }
  }

  lemma ReachableStep(s: State, m: Move)
    requires Reachable(s) && Can(s, m)
    ensures Reachable(Do(s, m))
  {
    var capacity, threads, dummy, moves :|
      dummy != NULL && Runs(Initial(capacity, threads, dummy), moves) && s == After(Initial(capacity, threads, dummy), moves);
    AfterAppend(Initial(capacity, threads, dummy), moves, m);
    var more := moves + [m];
    assert Runs(Initial(capacity, threads, dummy), more) && Do(s, m) == After(Initial(capacity, threads, dummy), more);
  }

  /** A list to whose end a writer can add, and what SLLInsert makes of it. */
  predicate Open(l: List) { l.tail in l.cells && l.cells[l.tail] == Cell(Owner, NULL) && l.tail != NULL }

  function ListInserted(l: List, x: Item, a: nat): List
    requires Open(l)
  {
    l.(tail := a, cells := l.cells[a := Cell(Owner, NULL)][l.tail := Cell(Item(x), a)])
  }

  function Inserted(s: State, t: nat, x: Item, a: nat): State
    requires t < |s.at| && Open(s.list)
  {
    Goes(s, t, EnqInserted(s.list.tail)).(list := ListInserted(s.list, x, a), inserted := s.inserted + [x], chain := s.chain + [a])
  }

  /** SLLInsert by one thread, without interruption. */
  lemma InsertAlone(s: State, t: nat, a: nat)
    requires t < |s.at| && s.at[t].EnqLocked? && Open(s.list) && a !in s.list.cells && a != NULL
    ensures Leads(s, Inserted(s, t, s.at[t].x, a))
  {
    var m := Move(t, Idle, a);
    LeadsNowhere(s);
    LeadsOn(s, s, m);
    var s1 := Do(s, m);
    LeadsOn(s, s1, m);
    var s2 := Do(s1, m);
    LeadsOn(s, s2, m);
    var s3 := Do(s2, m);
    LeadsOn(s, s3, m);
    var s4 := Do(s3, m);
    assert s4.list == ListInserted(s.list, s.at[t].x, a);
    assert s4.at == Inserted(s, t, s.at[t].x, a).at;
  }

  /** Where a remembered node is handed out again, its enqueuer can come next and take its item for lost. */
  lemma ReuseLoses(s: State, m: Move) returns (s': State)
    requires Inv(s) && Reuses(s, m)
    ensures Leads(s, s') && s'.lost == s.lost + 1
  {
    var t :| 0 <= t < |s.at| && Remembers(s.at[t], m.address);
    assert s.writeLock == By(m.thread) && WriterAt(s) == s.at[m.thread] && s.at[t].EnqCheck?;
    LocksAgree(s);
    TailIsOpen(s);
    InsertAlone(s, m.thread, m.address);
    var s1 := Inserted(s, m.thread, s.at[m.thread].x, m.address);
    LeadsOn(s, s1, Move(t, Idle, 0));
    s' := Do(s1, Move(t, Idle, 0));
  }

  lemma TailIsOpen(s: State)
    requires Inv(s) && WriterAt(s).EnqLocked?
    ensures Open(s.list)
  {
    LocksAgree(s);
    var l, w, r := s.list, WriterAt(s), ReaderAt(s);
    TailIsLive(l, s.chain, Items(s), w, r);
    assert Items(s) == [] ==> First(Items(s), r) == Owner;
  }

  // ---------- a run in which the list outgrows the capacity ----------

  /** FSQEnqueue by one thread alone, up to the comparison. */
  function Enqueued(s: State, t: nat, x: Item, a: nat): State
    requires t < |s.at| && s.enqueueSem > 0 && Open(s.list)
  {
    Goes(s, t, EnqCheck(s.list.tail)).(
      list := ListInserted(s.list, x, a), enqueueSem := s.enqueueSem - 1, inserted := s.inserted + [x], chain := s.chain + [a],
      calls := Offers(s.calls, x))
  }

  function Entered(s: State, t: nat, x: Item): State
    requires t < |s.at| && s.enqueueSem > 0
  {
    Goes(s, t, EnqLocked(x)).(writeLock := By(t), enqueueSem := s.enqueueSem - 1, calls := Offers(s.calls, x))
  }

  lemma EnterAlone(s: State, t: nat, x: Item)
    requires Reachable(s) && t < |s.at| && s.at[t] == Idle && s.writeLock == Free && s.enqueueSem > 0
    ensures Reachable(Entered(s, t, x))
  {
    var m := Move(t, EnqWait(x), 0);
    ReachableStep(s, m);
    var s1 := Do(s, m);
    ReachableStep(s1, m);
    var s2 := Do(s1, m);
    ReachableStep(s2, m);
    assert Do(s2, m) == Entered(s, t, x);
  }

  lemma EnqueueAlone(s: State, t: nat, x: Item, a: nat)
    requires Reachable(s) && t < |s.at| && s.at[t] == Idle && s.writeLock == Free && s.enqueueSem > 0
    requires Open(s.list) && a !in s.list.cells && a != NULL
    ensures Reachable(Enqueued(s, t, x, a))
  {
    EnterAlone(s, t, x);
    var s3 := Entered(s, t, x);
    InsertAlone(s3, t, a);
    var s4 := Inserted(s3, t, x, a);
    ReachableLeads(s3, s4);
    ReachableStep(s4, Move(t, Idle, 0));
    assert Do(s4, Move(t, Idle, 0)) == Enqueued(s, t, x, a);
  }

  /** Its end, as the comparison turns out. */
  function Answered(s: State, t: nat): State
    requires t < |s.at| && s.at[t].EnqCheck?
  {
    if s.list.tail == s.at[t].where then Goes(s, t, Idle).(enqueueSem := s.enqueueSem + 1, lost := s.lost + 1, calls := Answers(s.calls, false))
    else Goes(s, t, Idle).(dequeueSem := s.dequeueSem + 1, calls := Answers(s.calls, true))
  }

  lemma AnswerAlone(s: State, t: nat)
    requires Reachable(s) && t < |s.at| && s.at[t].EnqCheck?
    ensures Reachable(Answered(s, t))
  {
    var m := Move(t, Idle, 0);
    ReachableStep(s, m);
    var s1 := Do(s, m);
    assert s1.at[t].EnqPost?;
    ReachableStep(s1, m);
    assert Do(s1, m) == Answered(s, t);
  }

  /** A list with more than one item in it, and what SLLRemove makes of it. */
  predicate Longer(l: List) {
    && l.head in l.cells && l.cells[l.head].data.Item? && l.cells[l.head].next in l.cells
    && l.cells[l.head].next != l.head && l.cells[l.head].next != l.tail && l.cells[l.cells[l.head].next].next != NULL
  }

  function ListRemoved(l: List): List
    requires Longer(l)
  {
    var tmp := l.cells[l.head].next;
    l.(cells := l.cells[l.head := l.cells[tmp]] - {tmp})
  }

  function Removed(s: State, t: nat, x: Item): State
    requires t < |s.at| && Longer(s.list)
  {
    Goes(s, t, DeqRemoved(false, x)).(list := ListRemoved(s.list), removed := s.removed + [x], chain := WithoutSecond(s.chain))
  }

  function Copied(s: State, t: nat, x: Item): State
    requires t < |s.at| && Longer(s.list)
  {
    var l := s.list;
    var tmp := l.cells[l.head].next;
    Goes(s, t, DeqCopied(false, x, tmp)).(list := l.(cells := l.cells[l.head := Cell(l.cells[tmp].data, tmp)]))
  }

  lemma CopyAlone(s: State, t: nat)
    requires t < |s.at| && s.at[t] == DeqReady(false) && Longer(s.list)
    ensures Leads(s, Copied(s, t, s.list.cells[s.list.head].data.x))
  {
    var m := Move(t, Idle, 0);
    LeadsNowhere(s);
    LeadsOn(s, s, m);
    var s1 := Do(s, m);
    LeadsOn(s, s1, m);
    assert Do(s1, m) == Copied(s, t, s.list.cells[s.list.head].data.x);
  }

  /** SLLRemove by one thread, without interruption. */
  lemma RemoveAlone(s: State, t: nat)
    requires t < |s.at| && s.at[t] == DeqReady(false) && Longer(s.list)
    ensures Leads(s, Removed(s, t, s.list.cells[s.list.head].data.x))
  {
    CopyAlone(s, t);
    CutAlone(s, t, Copied(s, t, s.list.cells[s.list.head].data.x), s.list.cells[s.list.head].data.x);
  }

  lemma CutAlone(s: State, t: nat, s2: State, x: Item)
    requires t < |s.at| && Longer(s.list) && s2 == Copied(s, t, x) && Leads(s, s2)
    ensures Leads(s, Removed(s, t, x))
  {
    var m := Move(t, Idle, 0);
    LeadsOn(s, s2, m);
    var s3 := Do(s2, m);
    LeadsOn(s, s3, m);
    var s4 := Do(s3, m);
    LeadsOn(s, s4, m);
    var s5 := Do(s4, m);
    assert s5.list == ListRemoved(s.list);
    assert s5 == Removed(s, t, x);
  }

  /** FSQDequeue by one thread alone, up to the test and the end. */
  function Reading(s: State, t: nat): State
    requires t < |s.at| && s.dequeueSem > 0
  {
    Goes(s, t, DeqReady(false)).(readLock := By(t), dequeueSem := s.dequeueSem - 1)
  }

  lemma ReadAlone(s: State, t: nat)
    requires Reachable(s) && t < |s.at| && s.at[t] == Idle && s.readLock == Free && s.dequeueSem > 0 && Longer(s.list)
    ensures Reachable(Reading(s, t))
  {
    var m := Move(t, DeqWait, 0);
    ReachableStep(s, m);
    var s1 := Do(s, m);
    ReachableStep(s1, m);
    var s2 := Do(s1, m);
    ReachableStep(s2, m);
    var s3 := Do(s2, m);
    ReachableStep(s3, m);
    assert Do(s3, m) == Reading(s, t);
  }

  function Dequeued(s: State, t: nat): State
    requires t < |s.at| && s.dequeueSem > 0 && Longer(s.list)
  {
    Goes(s, t, Idle).(
      list := ListRemoved(s.list), removed := s.removed + [s.list.cells[s.list.head].data.x], chain := WithoutSecond(s.chain),
      dequeueSem := s.dequeueSem - 1, enqueueSem := s.enqueueSem + 1, calls := Returns(s.calls, s.list.cells[s.list.head].data.x))
  }

  lemma DequeueAlone(s: State, t: nat)
    requires Reachable(s) && t < |s.at| && s.at[t] == Idle && s.readLock == Free && s.dequeueSem > 0 && Longer(s.list)
    ensures Reachable(Dequeued(s, t))
  {
    ReadAlone(s, t);
    var s1 := Reading(s, t);
    RemoveAlone(s1, t);
    var s2 := Removed(s1, t, s.list.cells[s.list.head].data.x);
    ReachableLeads(s1, s2);
    LeaveAlone(s2, t);
    assert Left(s2, t) == Dequeued(s, t);
  }

  function Left(s: State, t: nat): State
    requires t < |s.at| && s.at[t].DeqRemoved?
  {
    Goes(s, t, Idle).(readLock := Free, enqueueSem := s.enqueueSem + 1, calls := Returns(s.calls, s.at[t].x))
  }

  lemma LeaveAlone(s: State, t: nat)
    requires Reachable(s) && t < |s.at| && s.at[t].DeqRemoved? && !s.at[t].single
    ensures Reachable(Left(s, t))
  {
    var m := Move(t, Idle, 0);
    ReachableStep(s, m);
    var s1 := Do(s, m);
    ReachableStep(s1, m);
    var s2 := Do(s1, m);
    ReachableStep(s2, m);
    assert Do(s2, m) == Left(s, t);
  }

  lemma InitialReachable(capacity: nat, threads: nat, dummy: nat)
    requires dummy != NULL
    ensures Reachable(Initial(capacity, threads, dummy))
  {
    var s := Initial(capacity, threads, dummy);
    assert Runs(s, []) && After(s, []) == s;
  }

  lemma FirstInsert() returns (s: State)
    ensures Reachable(s) && s.capacity == 2 && s.enqueueSem == 1 && s.dequeueSem == 0 && s.writeLock == s.readLock == Free
    ensures s.at == [EnqCheck(100), Idle, Idle] && s.inserted == [10] && s.removed == [] && s.lost == 0
    ensures s.list == List(100, 101, map[100 := Cell(Item(10), 101), 101 := Cell(Owner, NULL)])
  {
    var s0 := Initial(2, 3, 100);
    InitialReachable(2, 3, 100);
    EnqueueAlone(s0, 0, 10, 101);
    s := Enqueued(s0, 0, 10, 101);
  }

  lemma FirstEnqueue() returns (s: State)
    ensures Reachable(s) && s.capacity == 2 && s.enqueueSem == 1 && s.dequeueSem == 1 && s.writeLock == s.readLock == Free
    ensures s.at == [Idle, Idle, Idle] && s.inserted == [10] && s.removed == [] && s.lost == 0
    ensures s.list == List(100, 101, map[100 := Cell(Item(10), 101), 101 := Cell(Owner, NULL)])
  {
    var s1 := FirstInsert();
    AnswerAlone(s1, 0);
    s := Answered(s1, 0);
  }

  lemma HeldUpEnqueue() returns (s: State)
    ensures Reachable(s) && s.capacity == 2 && s.enqueueSem == 0 && s.dequeueSem == 1 && s.writeLock == s.readLock == Free
    ensures s.at == [Idle, EnqCheck(101), Idle] && s.inserted == [10, 11] && s.removed == [] && s.lost == 0
    ensures s.list == List(100, 102, map[100 := Cell(Item(10), 101), 101 := Cell(Item(11), 102), 102 := Cell(Owner, NULL)])
  {
    var s2 := FirstEnqueue();
    EnqueueAlone(s2, 1, 11, 102);
    s := Enqueued(s2, 1, 11, 102);
  }

  /** With three threads and capacity two: thread 1 inserts and is held up, thread 2 removes the
      first item, which frees the node that thread 1 remembers, and thread 0 gets that node. */
  lemma ListOutgrowsCapacity() returns (s: State)
    ensures Reachable(s) && s.lost == 1 && Length(s) == s.capacity + 1
  {
    var s3 := HeldUpEnqueue();
    DequeueAlone(s3, 2);
    var s4 := Dequeued(s3, 2);
    EnqueueAlone(s4, 0, 12, 101);
    var s5 := Enqueued(s4, 0, 12, 101);
    AnswerAlone(s5, 1);
    var s6 := Answered(s5, 1);
    EnqueueAlone(s6, 1, 13, 103);
    s := Enqueued(s6, 1, 13, 103);
  }
}
