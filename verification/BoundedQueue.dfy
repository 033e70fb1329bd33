/** The bounded queue of the producers and consumers (system_programming/src/producer_consumer/fsq.c)
    over the linked list with a moving dummy tail (ds/src/sll.c): two locks, two semaphores, any
    number of threads, interleaved between any two writes to the shared memory; a step does one such
    write at most, with the reads that go into it. Memory is handed out and freed by address, so that
    an address may come back. */
module BoundedQueue {
  import opened ListMemory

  datatype Holder = Free | By(thread: nat)

  /** Where a thread is in FSQEnqueue or FSQDequeue: before what. */
  datatype Place =
    | Idle
    | EnqWait(x: Item)                              // sem_wait(enqueue_sem)
    | EnqPermit(x: Item)                            // lock(write_lock)
    | EnqLocked(x: Item)                            // malloc, and copying the tail node into the new one
    | EnqAlloced(x: Item, where: nat, node: nat)    // where->next = node
    | EnqHooked(x: Item, where: nat, node: nat)     // where->data = x
    | EnqLinked(where: nat, node: nat)              // list->tail = node
    | EnqInserted(where: nat)                       // unlock(write_lock)
    | EnqCheck(where: nat)                          // the comparison with list->tail
    | EnqPost(ok: bool)                             // sem_post(dequeue_sem), or (enqueue_sem) when not ok; the answer
    | DeqWait                                       // sem_wait(dequeue_sem)
    | DeqPermit                                     // lock(read_lock)
    | DeqLocked                                     // the test for a single element
    | DeqSingle                                     // lock(write_lock)
    | DeqReady(single: bool)                        // reading head->data
    | DeqRead(single: bool, x: Item)                // head->data = tmp->data
    | DeqCopied(single: bool, x: Item, tmp: nat)    // head->next = tmp->next
    | DeqCut(single: bool, x: Item, tmp: nat)       // free(tmp)
    | DeqFreed(single: bool, x: Item)               // list->tail = head when head->next is NULL
    | DeqRemoved(single: bool, x: Item)             // unlock(write_lock) when single
    | DeqUnlock(x: Item)                            // unlock(read_lock)
    | DeqPost(x: Item)                              // sem_post(enqueue_sem), and the return of x

  datatype List = List(head: nat, tail: nat, cells: Memory)

  /** What the callers see: the items handed to FSQEnqueue, its answers (0 or not) and the items
      that FSQDequeue returned, each in the order of time. */
  datatype Calls = Calls(offered: seq<Item>, answered: seq<bool>, returned: seq<Item>)

  function Offers(c: Calls, x: Item): Calls { c.(offered := c.offered + [x]) }

  function Answers(c: Calls, ok: bool): Calls { c.(answered := c.answered + [ok]) }

  function Returns(c: Calls, x: Item): Calls { c.(returned := c.returned + [x]) }

  /** `inserted` and `removed` record the items in the order in which they were written into the
      list and in which what a dequeuer read was taken out; `lost` counts the inserted items whose
      FSQEnqueue found that it had failed. No step looks at these three, nor at `calls`, nor at
      `chain`, the addresses of the nodes from the head to the dummy. */
  datatype State = State(
    capacity: nat,
    list: List,
    enqueueSem: nat, dequeueSem: nat,
    writeLock: Holder, readLock: Holder,
    at: seq<Place>,
    inserted: seq<Item>, removed: seq<Item>, lost: nat, calls: Calls,
    chain: seq<nat>)

  function Initial(capacity: nat, threads: nat, dummy: nat): State {
    State(capacity, List(dummy, dummy, map[dummy := Cell(Owner, NULL)]), capacity, 0, Free, Free, seq(threads, _ => Idle), [], [], 0, Calls([], [], []), [dummy])
  }

  /** A step of `thread`; an idle thread starts `call`, an insertion is given `address` by malloc. */
  datatype Move = Move(thread: nat, call: Place, address: nat)

  /** A step can be taken when it need not wait and touches only live nodes. */
  predicate Can(s: State, m: Move) {
    var l := s.list;
    && m.thread < |s.at|
    && match s.at[m.thread]
       case Idle => m.call.EnqWait? || m.call.DeqWait?
       case EnqWait(_) => s.enqueueSem > 0
       case EnqPermit(_) => s.writeLock == Free
       case EnqLocked(_) => m.address !in l.cells && m.address != NULL && l.tail in l.cells
       case EnqAlloced(_, where, _) => where in l.cells
       case EnqHooked(_, where, _) => where in l.cells
       case EnqLinked(_, node) => node in l.cells
       case DeqWait => s.dequeueSem > 0
       case DeqPermit => s.readLock == Free
       case DeqSingle => s.writeLock == Free
       case DeqLocked => l.head in l.cells
       case DeqReady(_) => l.head in l.cells && l.cells[l.head].data.Item?
       case DeqRead(_, _) => l.head in l.cells && l.cells[l.head].next in l.cells
       case DeqCopied(_, _, tmp) => l.head in l.cells && tmp in l.cells
       case DeqCut(_, _, tmp) => tmp in l.cells
       case DeqFreed(_, _) => l.head in l.cells
       case _ => true
  }

  function Goes(s: State, t: nat, p: Place): State
    requires t < |s.at|
  {
    s.(at := s.at[t := p])
  }

  /** The writes of SLLInsert and SLLRemove, one at a time. */
  function Writes(l: List, p: Place, address: nat): List {
    match p
    case EnqLocked(_) => if l.tail in l.cells then l.(cells := l.cells[address := l.cells[l.tail]]) else l
    case EnqAlloced(_, where, node) => if where in l.cells then l.(cells := l.cells[where := l.cells[where].(next := node)]) else l
    case EnqHooked(x, where, _) => if where in l.cells then l.(cells := l.cells[where := l.cells[where].(data := Item(x))]) else l
    case EnqLinked(_, node) => if node in l.cells && l.cells[node].next == NULL then l.(tail := node) else l
    case DeqRead(_, _) =>
      if l.head in l.cells && l.cells[l.head].next in l.cells
      then l.(cells := l.cells[l.head := l.cells[l.head].(data := l.cells[l.cells[l.head].next].data)]) else l
    case DeqCopied(_, _, tmp) =>
      if l.head in l.cells && tmp in l.cells then l.(cells := l.cells[l.head := l.cells[l.head].(next := l.cells[tmp].next)]) else l
    case DeqCut(_, _, tmp) => l.(cells := l.cells - {tmp})
    case DeqFreed(_, _) => if l.head in l.cells && l.cells[l.head].next == NULL then l.(tail := l.head) else l
    case _ => l
  }

  function Do(s: State, m: Move): State
    requires Can(s, m)
  {
    var t, l, p := m.thread, s.list, s.at[m.thread];
    var s' := s.(list := Writes(l, p, m.address));
    match p
    case Idle => if m.call.EnqWait? then Goes(s, t, m.call).(calls := Offers(s.calls, m.call.x)) else Goes(s, t, m.call)
    case EnqWait(x) => Goes(s, t, EnqPermit(x)).(enqueueSem := s.enqueueSem - 1)
    case EnqPermit(x) => Goes(s, t, EnqLocked(x)).(writeLock := By(t))
    case EnqLocked(x) => Goes(s', t, EnqAlloced(x, l.tail, m.address))
    case EnqAlloced(x, where, node) => Goes(s', t, EnqHooked(x, where, node))
    case EnqHooked(x, where, node) => Goes(s', t, EnqLinked(where, node)).(inserted := s.inserted + [x], chain := s.chain + [node])
    case EnqLinked(where, node) => Goes(s', t, EnqInserted(where))
    case EnqInserted(where) => Goes(s, t, EnqCheck(where)).(writeLock := Free)
    case EnqCheck(where) => if l.tail == where then Goes(s, t, EnqPost(false)).(lost := s.lost + 1) else Goes(s, t, EnqPost(true))
    case EnqPost(ok) =>
      if ok then Goes(s, t, Idle).(dequeueSem := s.dequeueSem + 1, calls := Answers(s.calls, true))
      else Goes(s, t, Idle).(enqueueSem := s.enqueueSem + 1, calls := Answers(s.calls, false))
    case DeqWait => Goes(s, t, DeqPermit).(dequeueSem := s.dequeueSem - 1)
    case DeqPermit => Goes(s, t, DeqLocked).(readLock := By(t))
    case DeqLocked => Goes(s, t, if l.cells[l.head].next == l.tail then DeqSingle else DeqReady(false))
    case DeqSingle => Goes(s, t, DeqReady(true)).(writeLock := By(t))
    case DeqReady(single) => Goes(s, t, DeqRead(single, l.cells[l.head].data.x))
    case DeqRead(single, x) => Goes(s', t, DeqCopied(single, x, l.cells[l.head].next))
    case DeqCopied(single, x, tmp) => Goes(s', t, DeqCut(single, x, tmp)).(removed := s.removed + [x], chain := WithoutSecond(s.chain))
    case DeqCut(single, x, _) => Goes(s', t, DeqFreed(single, x))
    case DeqFreed(single, x) => Goes(s', t, DeqRemoved(single, x))
    case DeqRemoved(single, x) => if single then Goes(s, t, DeqUnlock(x)).(writeLock := Free) else Goes(s, t, DeqUnlock(x))
    case DeqUnlock(x) => Goes(s, t, DeqPost(x)).(readLock := Free)
    case DeqPost(x) => Goes(s, t, Idle).(enqueueSem := s.enqueueSem + 1, calls := Returns(s.calls, x))
  }

  function WithoutSecond(chain: seq<nat>): seq<nat> { if |chain| < 2 then chain else [chain[0]] + chain[2..] }

  // ---------- runs ----------

  predicate Runs(s: State, moves: seq<Move>)
    decreases |moves|
  {
    moves == [] || (Can(s, moves[0]) && Runs(Do(s, moves[0]), moves[1..]))
  }

  function After(s: State, moves: seq<Move>): State
    requires Runs(s, moves)
    decreases |moves|
  {
    if moves == [] then s else After(Do(s, moves[0]), moves[1..])
  }

  // ---------- who holds what ----------

  /** In SLLInsert or about to leave the write lock. */
  predicate Inserts(p: Place) { p.EnqLocked? || p.EnqAlloced? || p.EnqHooked? || p.EnqLinked? || p.EnqInserted? }

  predicate BeforeCut(p: Place) { p.DeqReady? || p.DeqRead? || p.DeqCopied? }

  predicate AfterCut(p: Place) { p.DeqCut? || p.DeqFreed? }

  predicate Removes(p: Place) { BeforeCut(p) || AfterCut(p) || p.DeqRemoved? }

  predicate HoldsWrite(p: Place) { Inserts(p) || (Removes(p) && p.single) }

  predicate HoldsRead(p: Place) { p.DeqLocked? || p.DeqSingle? || Removes(p) || p.DeqUnlock? }

  /** The lock is with the thread that is at such a place, if there is one. */
  ghost predicate WriteHeld(at: seq<Place>, lock: Holder) {
    && (forall t :: 0 <= t < |at| ==> (HoldsWrite(at[t]) <==> lock == By(t)))
    && (lock.By? ==> lock.thread < |at|)
  }

  ghost predicate ReadHeld(at: seq<Place>, lock: Holder) {
    && (forall t :: 0 <= t < |at| ==> (HoldsRead(at[t]) <==> lock == By(t)))
    && (lock.By? ==> lock.thread < |at|)
  }

  ghost predicate Locks(s: State) { WriteHeld(s.at, s.writeLock) && ReadHeld(s.at, s.readLock) }

  predicate Enqueues(p: Place) { p.EnqWait? || p.EnqPermit? || Inserts(p) || p.EnqCheck? || p.EnqPost? }

  /** How a lock changes hands with a step from one place to another. */
  predicate Passes(held: bool, holds: bool, t: nat, lock: Holder, lock': Holder) {
    && (held == holds ==> lock' == lock)
    && (!held && holds ==> lock == Free && lock' == By(t))
    && (held && !holds ==> lock' == Free)
  }

  /** What a step of a thread does to the places and the locks. */
  predicate Stepped(s: State, s': State, t: nat) {
    && t < |s.at| == |s'.at| && s'.at == s.at[t := s'.at[t]]
    && Passes(HoldsWrite(s.at[t]), HoldsWrite(s'.at[t]), t, s.writeLock, s'.writeLock)
    && Passes(HoldsRead(s.at[t]), HoldsRead(s'.at[t]), t, s.readLock, s'.readLock)
  }

  lemma InsertSteps(s: State, m: Move)
    requires Can(s, m) && Inserts(s.at[m.thread])
    ensures Stepped(s, Do(s, m), m.thread)
  {}

  lemma EnqueueSteps(s: State, m: Move)
    requires Can(s, m) && Enqueues(s.at[m.thread]) && !Inserts(s.at[m.thread])
    ensures Stepped(s, Do(s, m), m.thread)
  {}

  lemma RemovalSteps(s: State, m: Move)
    requires Can(s, m) && Removes(s.at[m.thread])
    ensures Stepped(s, Do(s, m), m.thread)
  {}

  lemma DequeueSteps(s: State, m: Move)
    requires Can(s, m) && !Enqueues(s.at[m.thread]) && !Removes(s.at[m.thread])
    ensures Stepped(s, Do(s, m), m.thread)
  {}

  lemma Steps(s: State, m: Move)
    requires Can(s, m)
    ensures Stepped(s, Do(s, m), m.thread)
  {
    var p := s.at[m.thread];
    if Inserts(p) {
      InsertSteps(s, m);
    } else if Enqueues(p) {
      EnqueueSteps(s, m);
    } else if Removes(p) {
      RemovalSteps(s, m);
    } else {
      DequeueSteps(s, m);
    }
  }

  lemma WriteHeldKept(at: seq<Place>, lock: Holder, t: nat, p: Place, lock': Holder)
    requires WriteHeld(at, lock) && t < |at| && Passes(HoldsWrite(at[t]), HoldsWrite(p), t, lock, lock')
    ensures WriteHeld(at[t := p], lock')
  {}

  lemma ReadHeldKept(at: seq<Place>, lock: Holder, t: nat, p: Place, lock': Holder)
    requires ReadHeld(at, lock) && t < |at| && Passes(HoldsRead(at[t]), HoldsRead(p), t, lock, lock')
    ensures ReadHeld(at[t := p], lock')
  {}

  lemma LocksKept(s: State, m: Move)
    requires Locks(s) && Can(s, m)
    ensures Locks(Do(s, m))
  {
    Steps(s, m);
    WriteHeldKept(s.at, s.writeLock, m.thread, Do(s, m).at[m.thread], Do(s, m).writeLock);
    ReadHeldKept(s.at, s.readLock, m.thread, Do(s, m).at[m.thread], Do(s, m).readLock);
  }

  // ---------- conservation ----------

  datatype Kind = Slot | Filled

  /** A thread between its wait and its post has a free slot or a filled one in hand. */
  predicate HasSlot(p: Place) {
    || p.EnqPermit? || p.EnqLocked? || p.EnqAlloced? || p.EnqHooked? || (p.EnqPost? && !p.ok)
    || AfterCut(p) || p.DeqRemoved? || p.DeqUnlock? || p.DeqPost?
  }

  predicate HasFilled(p: Place) {
    || p.EnqLinked? || p.EnqInserted? || p.EnqCheck? || (p.EnqPost? && p.ok)
    || p.DeqPermit? || p.DeqLocked? || p.DeqSingle? || BeforeCut(p)
  }

  function InHand(p: Place, k: Kind): nat {
    if (if k == Slot then HasSlot(p) else HasFilled(p)) then 1 else 0
  }

  function Total(at: seq<Place>, k: Kind): nat {
    if at == [] then 0 else Total(at[..|at| - 1], k) + InHand(at[|at| - 1], k)
  }

  predicate Between(p: Place) { !p.Idle? && !p.EnqWait? && !p.DeqWait? }

  function ThreadsBetween(at: seq<Place>): nat {
    if at == [] then 0 else ThreadsBetween(at[..|at| - 1]) + (if Between(at[|at| - 1]) then 1 else 0)
  }

  lemma {:induction false} BetweenIsInHand(at: seq<Place>)
    ensures ThreadsBetween(at) == Total(at, Slot) + Total(at, Filled)
    decreases |at|
  {
    if at != [] { BetweenIsInHand(at[..|at| - 1]); }
  }

  lemma {:induction false} TotalUpdate(at: seq<Place>, t: nat, p: Place, k: Kind)
    requires t < |at|
    ensures Total(at[t := p], k) == Total(at, k) - InHand(at[t], k) + InHand(p, k)
    decreases |at|
  {
    var front := at[..|at| - 1];
    if t == |at| - 1 {
      assert at[t := p][..|at| - 1] == front;
    } else {
      TotalUpdate(front, t, p, k);
      assert at[t := p][..|at| - 1] == front[t := p];
    }
  }

  lemma {:induction false} TotalAtLeast(at: seq<Place>, t: nat, u: nat, k: Kind)
    requires t < |at| && u < |at|
    ensures Total(at, k) >= if t == u then InHand(at[t], k) else InHand(at[t], k) + InHand(at[u], k)
    decreases |at|
  {
    var last := |at| - 1;
    if t < last && u < last {
      TotalAtLeast(at[..last], t, u, k);
    } else if t < last {
      TotalAtLeast(at[..last], t, t, k);
    } else if u < last {
      TotalAtLeast(at[..last], u, u, k);
    }
  }

  /** How many items are in the list. */
  function Length(s: State): int { |s.inserted| - |s.removed| }

  /** The items are those with a permit and the lost ones; the rest of the capacity is free slots. */
  ghost predicate Counts(s: State) {
    && Length(s) == s.dequeueSem + Total(s.at, Filled) + s.lost
    && s.enqueueSem + Total(s.at, Slot) + Length(s) == s.capacity + s.lost
  }

  /** What a step of a thread does to the books, before they are summed up. */
  predicate Booked(s: State, s': State, p: Place, p': Place) {
    && Length(s') - s'.dequeueSem - s'.lost - InHand(p', Filled) == Length(s) - s.dequeueSem - s.lost - InHand(p, Filled)
    && s'.enqueueSem + InHand(p', Slot) + Length(s') - s'.lost == s.enqueueSem + InHand(p, Slot) + Length(s) - s.lost
    && s'.capacity == s.capacity
  }

  lemma InsertBooked(s: State, m: Move)
    requires Can(s, m) && Inserts(s.at[m.thread]) && m.thread < |Do(s, m).at|
    ensures Booked(s, Do(s, m), s.at[m.thread], Do(s, m).at[m.thread])
  {
    if s.at[m.thread].EnqHooked? {
      assert Do(s, m).at[m.thread].EnqLinked? && Length(Do(s, m)) == Length(s) + 1;
    } else {
      assert Length(Do(s, m)) == Length(s);
    }
  }

  lemma EnqueueBooked(s: State, m: Move)
    requires Can(s, m) && Enqueues(s.at[m.thread]) && !Inserts(s.at[m.thread]) && m.thread < |Do(s, m).at|
    ensures Booked(s, Do(s, m), s.at[m.thread], Do(s, m).at[m.thread])
  {}

  lemma RemovalBooked(s: State, m: Move)
    requires Can(s, m) && Removes(s.at[m.thread]) && m.thread < |Do(s, m).at|
    ensures Booked(s, Do(s, m), s.at[m.thread], Do(s, m).at[m.thread])
  {}

  lemma DequeueBooked(s: State, m: Move)
    requires Can(s, m) && !Enqueues(s.at[m.thread]) && !Removes(s.at[m.thread]) && m.thread < |Do(s, m).at|
    ensures Booked(s, Do(s, m), s.at[m.thread], Do(s, m).at[m.thread])
  {}

  lemma CountsKept(s: State, m: Move)
    requires Counts(s) && Can(s, m)
    ensures Counts(Do(s, m)) && Do(s, m).capacity == s.capacity
  {
    Steps(s, m);
    var p := s.at[m.thread];
    if Inserts(p) {
      InsertBooked(s, m);
    } else if Enqueues(p) {
      EnqueueBooked(s, m);
    } else if Removes(p) {
      RemovalBooked(s, m);
    } else {
      DequeueBooked(s, m);
    }
    TotalUpdate(s.at, m.thread, Do(s, m).at[m.thread], Slot);
    TotalUpdate(s.at, m.thread, Do(s, m).at[m.thread], Filled);
  }

  // ---------- the list ----------

  function Items(s: State): seq<Item> { if |s.removed| <= |s.inserted| then s.inserted[|s.removed|..] else [] }

  /** Where the holder of the write lock, or of the read lock, is. */
  function WriterAt(s: State): Place {
    if s.writeLock.By? && s.writeLock.thread < |s.at| then s.at[s.writeLock.thread] else Idle
  }

  function ReaderAt(s: State): Place {
    if s.readLock.By? && s.readLock.thread < |s.at| then s.at[s.readLock.thread] else Idle
  }

  /** What the first node carries: a reader may have copied the second node's data into it. */
  function First(items: seq<Item>, r: Place): Data { DataAt(items, if r.DeqCopied? then 1 else 0) }

  /** What the last node points to: a writer may have hooked its new node to it. */
  function End(w: Place): nat { if w.EnqHooked? then w.node else NULL }

  /** A writer's node that is not yet part of the list. */
  function Pending(w: Place): nat { if w.EnqAlloced? || w.EnqHooked? then w.node else NULL }

  function TailIndex(chain: seq<nat>, w: Place): int { if w.EnqLinked? then |chain| - 2 else |chain| - 1 }

  ghost predicate WriterShape(l: List, chain: seq<nat>, w: Place) {
    && (w.EnqAlloced? || w.EnqHooked? ==>
          |chain| > 0 && w.where == chain[|chain| - 1] && w.node !in chain && w.node != NULL && w.node in l.cells && l.cells[w.node] == Cell(Owner, NULL))
    && (w.EnqLinked? ==> |chain| > 1 && w.node == chain[|chain| - 1] && w.where == chain[|chain| - 2])
  }

  /** A reader without the write lock stays away from the tail; what it has read is the first item. */
  ghost predicate ReaderShape(l: List, chain: seq<nat>, items: seq<Item>, w: Place, r: Place) {
    && (BeforeCut(r) && !r.single ==> TailIndex(chain, w) >= 2)
    && (r.DeqRead? || r.DeqCopied? ==> items != [] && r.x == items[0])
    && (r.DeqCopied? ==> |chain| > 1 && r.tmp == chain[1])
    && (r.DeqCut? ==> r.tmp != NULL && r.tmp !in chain && r.tmp in l.cells && r.tmp != Pending(w))
    && (AfterCut(r) && !r.single ==> items != [])
  }

  /** The tail is the last node but while a writer has linked one behind it, or a reader has cut out the last. */
  ghost predicate TailShape(l: List, chain: seq<nat>, items: seq<Item>, w: Place, r: Place) {
    0 <= TailIndex(chain, w) < |chain| && ((AfterCut(r) && items == []) || l.tail == chain[TailIndex(chain, w)])
  }

  /** The memory spells the list that the writer at `w` and the reader at `r` have left. */
  ghost predicate ListShape(l: List, chain: seq<nat>, items: seq<Item>, w: Place, r: Place) {
    && Chained(l.cells, chain, items, First(items, r), End(w)) && chain[0] == l.head
    && WriterShape(l, chain, w) && ReaderShape(l, chain, items, w, r) && TailShape(l, chain, items, w, r)
  }

  /** A reader that holds both locks is the writer too. */
  predicate Agree(w: Place, r: Place) { Removes(r) && r.single ==> w == r }

  lemma TailIsLive(l: List, chain: seq<nat>, items: seq<Item>, w: Place, r: Place)
    requires ListShape(l, chain, items, w, r) && Inserts(w) && Agree(w, r)
    ensures l.tail == chain[TailIndex(chain, w)] && l.tail in l.cells
    ensures |chain| == 1 || CellAt(l.cells, chain, |chain| - 1, Owner, End(w))
    ensures |chain| == 1 ==> l.cells[l.tail] == Cell(First(items, r), End(w))
  {
    var k := TailIndex(chain, w);
    assert k > 0 ==> CellAt(l.cells, chain, k, DataAt(items, k), NextAt(chain, k, End(w)));
    assert |chain| > 1 ==> CellAt(l.cells, chain, |chain| - 1, DataAt(items, |chain| - 1), NextAt(chain, |chain| - 1, End(w)));
  }

  /** malloc, and the copy of the tail node. */
  lemma AllocShape(l: List, chain: seq<nat>, items: seq<Item>, w: Place, r: Place, node: nat)
    requires ListShape(l, chain, items, w, r) && w.EnqLocked? && Agree(w, r) && node !in l.cells && node != NULL
    ensures l.tail in l.cells && ListShape(Writes(l, w, node), chain, items, EnqAlloced(w.x, l.tail, node), r)
  {
    TailIsLive(l, chain, items, w, r);
    forall i | 0 <= i < |chain| ensures chain[i] != node {
      assert i > 0 ==> CellAt(l.cells, chain, i, DataAt(items, i), NextAt(chain, i, End(w)));
    }
    WriteElsewhere(l.cells, chain, items, First(items, r), NULL, node, l.cells[l.tail]);
  }

  lemma HookShape(l: List, chain: seq<nat>, items: seq<Item>, w: Place, r: Place)
    requires ListShape(l, chain, items, w, r) && w.EnqAlloced? && Agree(w, r)
    ensures w.where in l.cells && ListShape(Writes(l, w, 0), chain, items, EnqHooked(w.x, w.where, w.node), r)
  {
    WriteEnd(l.cells, chain, items, First(items, r), NULL, w.node);
  }

  lemma DataShape(l: List, chain: seq<nat>, items: seq<Item>, w: Place, r: Place)
    requires ListShape(l, chain, items, w, r) && w.EnqHooked? && Agree(w, r)
    ensures w.where in l.cells && ListShape(Writes(l, w, 0), chain + [w.node], items + [w.x], EnqLinked(w.where, w.node), r)
  {
    TailIsLive(l, chain, items, w, r);
    WriteLast(l.cells, chain, items, First(items, r), w.node, w.x);
    var items' := items + [w.x];
    assert items != [] ==> items'[0] == items[0];
    assert First(items', r) == if items == [] then Item(w.x) else First(items, r);
  }

  lemma TailMoveShape(l: List, chain: seq<nat>, items: seq<Item>, w: Place, r: Place)
    requires ListShape(l, chain, items, w, r) && w.EnqLinked? && Agree(w, r)
    ensures w.node in l.cells && Writes(l, w, 0).tail == w.node && ListShape(Writes(l, w, 0), chain, items, EnqInserted(w.where), r)
  {
    TailIsLive(l, chain, items, w, r);
  }

  lemma CopyShape(l: List, chain: seq<nat>, items: seq<Item>, w: Place, r: Place)
    requires ListShape(l, chain, items, w, r) && r.DeqRead? && Agree(w, r)
    ensures l.head in l.cells && l.cells[l.head] == Cell(Item(items[0]), chain[1]) && chain[1] in l.cells
    ensures var r' := DeqCopied(r.single, r.x, chain[1]); ListShape(Writes(l, r, 0), chain, items, if w == r then r' else w, r')
  {
    CopyData(l.cells, chain, items, First(items, r), End(w));
  }

  lemma CutShape(l: List, chain: seq<nat>, items: seq<Item>, w: Place, r: Place)
    requires ListShape(l, chain, items, w, r) && r.DeqCopied? && Agree(w, r)
    ensures l.head in l.cells && r.tmp in l.cells
    ensures var r' := DeqCut(r.single, r.x, r.tmp); ListShape(Writes(l, r, 0), WithoutSecond(chain), items[1..], if w == r then r' else w, r')
  {
    CopyNext(l.cells, chain, items, End(w));
    var chain' := WithoutSecond(chain);
    assert forall i :: 0 < i < |chain'| ==> chain'[i] == chain[i + 1];
  }

  lemma FreeShape(l: List, chain: seq<nat>, items: seq<Item>, w: Place, r: Place)
    requires ListShape(l, chain, items, w, r) && r.DeqCut? && Agree(w, r)
    ensures var r' := DeqFreed(r.single, r.x); ListShape(Writes(l, r, 0), chain, items, if w == r then r' else w, r')
  {
    FreeElsewhere(l.cells, chain, items, First(items, r), End(w), r.tmp);
  }

  lemma TailBackShape(l: List, chain: seq<nat>, items: seq<Item>, w: Place, r: Place)
    requires ListShape(l, chain, items, w, r) && r.DeqFreed? && Agree(w, r)
    ensures l.head in l.cells && Writes(l, r, 0).tail == if items == [] then l.head else l.tail
    ensures var r' := DeqRemoved(r.single, r.x); ListShape(Writes(l, r, 0), chain, items, if w == r then r' else w, r')
  {}

  // ---------- the invariant ----------

  ghost predicate Shape(s: State) {
    s.removed <= s.inserted && ListShape(s.list, s.chain, Items(s), WriterAt(s), ReaderAt(s))
  }

  ghost predicate Inv(s: State) { Locks(s) && Counts(s) && Shape(s) }

  lemma InitialInv(capacity: nat, threads: nat, dummy: nat)
    requires dummy != NULL
    ensures Inv(Initial(capacity, threads, dummy))
  {
    NothingInHand(seq(threads, _ => Idle));
  }

  lemma {:induction false} NothingInHand(at: seq<Place>)
    requires forall t :: 0 <= t < |at| ==> at[t] == Idle
    ensures forall k :: Total(at, k) == 0
    decreases |at|
  {
    if at != [] { NothingInHand(at[..|at| - 1]); }
  }

  lemma LocksAgree(s: State)
    requires Locks(s)
    ensures Agree(WriterAt(s), ReaderAt(s))
  {}

  /** What the steps of a thread make of the two lock holders. */
  lemma HoldersAfter(s: State, s': State, t: nat)
    requires Locks(s) && Stepped(s, s', t)
    ensures WriterAt(s') == if HoldsWrite(s'.at[t]) then s'.at[t] else if HoldsWrite(s.at[t]) then Idle else WriterAt(s)
    ensures ReaderAt(s') == if HoldsRead(s'.at[t]) then s'.at[t] else if HoldsRead(s.at[t]) then Idle else ReaderAt(s)
    ensures HoldsWrite(s.at[t]) ==> WriterAt(s) == s.at[t]
    ensures HoldsRead(s.at[t]) ==> ReaderAt(s) == s.at[t]
    ensures HoldsWrite(s'.at[t]) && !HoldsWrite(s.at[t]) ==> WriterAt(s) == Idle
    ensures HoldsRead(s'.at[t]) && !HoldsRead(s.at[t]) ==> ReaderAt(s) == Idle
  {}

  /** A reader with a permit finds an element, and a linked node does not count as one. */
  lemma ReaderFinds(s: State, t: nat)
    requires Inv(s) && t < |s.at| && (s.at[t].DeqPermit? || s.at[t].DeqLocked? || s.at[t].DeqSingle? || BeforeCut(s.at[t]))
    ensures Items(s) != [] && TailIndex(s.chain, WriterAt(s)) >= 1
  {
    TotalAtLeast(s.at, t, t, Filled);
    if WriterAt(s).EnqLinked? { TotalAtLeast(s.at, t, s.writeLock.thread, Filled); }
  }

  /** A writer before or behind SLLInsert leaves no trace ... */
  lemma PlainWriter(l: List, chain: seq<nat>, items: seq<Item>, w: Place, w': Place, r: Place)
    requires ListShape(l, chain, items, w, r) && Plain(w) && Plain(w')
    ensures ListShape(l, chain, items, w', r)
  {
    assert End(w') == End(w) && Pending(w') == Pending(w) && TailIndex(chain, w') == TailIndex(chain, w);
    assert WriterShape(l, chain, w');
    assert ReaderShape(l, chain, items, w', r);
  }

  /** ... and a reader before or behind SLLRemove neither. */
  lemma PlainReader(l: List, chain: seq<nat>, items: seq<Item>, w: Place, r: Place, r': Place)
    requires ListShape(l, chain, items, w, r) && !BeforeCut(r) && !AfterCut(r) && !AfterCut(r')
    requires BeforeCut(r') ==> r'.DeqReady? && (r'.single || TailIndex(chain, w) >= 2)
    ensures ListShape(l, chain, items, w, r')
  {}

  predicate Plain(w: Place) { !w.EnqAlloced? && !w.EnqHooked? && !w.EnqLinked? }

  lemma AllocKeepsShape(s: State, m: Move)
    requires Inv(s) && Can(s, m) && (s.at[m.thread].EnqLocked? || s.at[m.thread].EnqAlloced?)
    ensures Shape(Do(s, m))
  {
    var l, w, r := s.list, WriterAt(s), ReaderAt(s);
    InsertSteps(s, m);
    HoldersAfter(s, Do(s, m), m.thread);
    LocksAgree(s);
    if s.at[m.thread].EnqLocked? {
      AllocShape(l, s.chain, Items(s), w, r, m.address);
    } else {
      HookShape(l, s.chain, Items(s), w, r);
    }
  }

  lemma DataKeepsShape(s: State, m: Move)
    requires Inv(s) && Can(s, m) && s.at[m.thread].EnqHooked?
    ensures Shape(Do(s, m))
  {
    InsertSteps(s, m);
    HoldersAfter(s, Do(s, m), m.thread);
    LocksAgree(s);
    DataShape(s.list, s.chain, Items(s), WriterAt(s), ReaderAt(s));
    assert Items(Do(s, m)) == Items(s) + [s.at[m.thread].x];
  }

  lemma TailKeepsShape(s: State, m: Move)
    requires Inv(s) && Can(s, m) && (s.at[m.thread].EnqLinked? || s.at[m.thread].EnqInserted?)
    ensures Shape(Do(s, m))
  {
    var l, w, r := s.list, WriterAt(s), ReaderAt(s);
    InsertSteps(s, m);
    HoldersAfter(s, Do(s, m), m.thread);
    LocksAgree(s);
    if s.at[m.thread].EnqLinked? {
      TailMoveShape(l, s.chain, Items(s), w, r);
    } else {
      PlainWriter(l, s.chain, Items(s), w, Idle, r);
    }
  }

  lemma CopyKeepsShape(s: State, m: Move)
    requires Inv(s) && Can(s, m) && (s.at[m.thread].DeqReady? || s.at[m.thread].DeqRead?)
    ensures Shape(Do(s, m))
  {
    RemovalSteps(s, m);
    HoldersAfter(s, Do(s, m), m.thread);
    LocksAgree(s);
    if s.at[m.thread].DeqReady? {
      ReaderFinds(s, m.thread);
    } else {
      CopyShape(s.list, s.chain, Items(s), WriterAt(s), ReaderAt(s));
    }
  }

  lemma CutKeepsShape(s: State, m: Move)
    requires Inv(s) && Can(s, m) && s.at[m.thread].DeqCopied?
    ensures Shape(Do(s, m))
  {
    RemovalSteps(s, m);
    HoldersAfter(s, Do(s, m), m.thread);
    LocksAgree(s);
    CutShape(s.list, s.chain, Items(s), WriterAt(s), ReaderAt(s));
    TakenFirst(s.inserted, s.removed, s.at[m.thread].x);
  }

  lemma TakenFirst(inserted: seq<Item>, removed: seq<Item>, x: Item)
    requires removed <= inserted && |removed| < |inserted| && x == inserted[|removed|..][0]
    ensures removed + [x] <= inserted && inserted[|removed + [x]|..] == inserted[|removed|..][1..]
  {}

  lemma FreeKeepsShape(s: State, m: Move)
    requires Inv(s) && Can(s, m) && s.at[m.thread].DeqCut?
    ensures Shape(Do(s, m))
  {
    RemovalSteps(s, m);
    HoldersAfter(s, Do(s, m), m.thread);
    LocksAgree(s);
    FreeShape(s.list, s.chain, Items(s), WriterAt(s), ReaderAt(s));
  }

  lemma TailBackKeepsShape(s: State, m: Move)
    requires Inv(s) && Can(s, m) && s.at[m.thread].DeqFreed?
    ensures Shape(Do(s, m))
  {
    RemovalSteps(s, m);
    HoldersAfter(s, Do(s, m), m.thread);
    LocksAgree(s);
    TailBackShape(s.list, s.chain, Items(s), WriterAt(s), ReaderAt(s));
  }

  /** Outside SLLInsert and SLLRemove nothing is written. */
  lemma OutsideQuiet(s: State, m: Move)
    requires Can(s, m) && !Inserts(s.at[m.thread]) && !Removes(s.at[m.thread])
    ensures Do(s, m).list == s.list && Do(s, m).chain == s.chain && Do(s, m).inserted == s.inserted && Do(s, m).removed == s.removed
  {}

  lemma ShapeOfHolders(s: State, s': State)
    requires Shape(s) && s'.list == s.list && s'.chain == s.chain && s'.inserted == s.inserted && s'.removed == s.removed
    requires WriterAt(s') == WriterAt(s) || (Plain(WriterAt(s)) && Plain(WriterAt(s')))
    requires ReaderAt(s') == ReaderAt(s) || (!BeforeCut(ReaderAt(s)) && !AfterCut(ReaderAt(s)) && (!Removes(ReaderAt(s')) ||
               (ReaderAt(s').DeqReady? && (ReaderAt(s').single || TailIndex(s.chain, WriterAt(s)) >= 2))))
    ensures Shape(s')
  {
    var l, w, w', r, r' := s.list, WriterAt(s), WriterAt(s'), ReaderAt(s), ReaderAt(s');
    if r' != r { PlainReader(l, s.chain, Items(s), w, r, r'); }
    if w' != w { PlainWriter(l, s.chain, Items(s), w, w', r'); }
  }

  lemma EnqueueKeepsShape(s: State, m: Move)
    requires Inv(s) && Can(s, m) && Enqueues(s.at[m.thread]) && !Inserts(s.at[m.thread])
    ensures Shape(Do(s, m))
  {
    EnqueueSteps(s, m);
    OutsideQuiet(s, m);
    HoldersAfter(s, Do(s, m), m.thread);
    ShapeOfHolders(s, Do(s, m));
  }

  lemma DequeueKeepsShape(s: State, m: Move)
    requires Inv(s) && Can(s, m) && !Enqueues(s.at[m.thread]) && !Removes(s.at[m.thread])
    ensures Shape(Do(s, m))
  {
    DequeueSteps(s, m);
    OutsideQuiet(s, m);
    HoldersAfter(s, Do(s, m), m.thread);
    if s.at[m.thread].DeqLocked? { SecondIsTail(s, m.thread); }
    ShapeOfHolders(s, Do(s, m));
  }

  lemma LeavingKeepsShape(s: State, m: Move)
    requires Inv(s) && Can(s, m) && s.at[m.thread].DeqRemoved?
    ensures Shape(Do(s, m))
  {
    RemovalSteps(s, m);
    HoldersAfter(s, Do(s, m), m.thread);
    LocksAgree(s);
    ShapeOfHolders(s, Do(s, m));
  }

  lemma SecondIsTail(s: State, t: nat)
    requires Inv(s) && t < |s.at| && s.at[t].DeqLocked? && s.list.head in s.list.cells
    ensures s.list.cells[s.list.head].next == s.list.tail || TailIndex(s.chain, WriterAt(s)) >= 2
  {
    ReaderFinds(s, t);
    assert ReaderAt(s) == s.at[t];
  }

  lemma ShapeKept(s: State, m: Move)
    requires Inv(s) && Can(s, m)
    ensures Shape(Do(s, m))
  {
    var p := s.at[m.thread];
    if p.EnqLocked? || p.EnqAlloced? {
      AllocKeepsShape(s, m);
    } else if p.EnqHooked? {
      DataKeepsShape(s, m);
    } else if p.EnqLinked? || p.EnqInserted? {
      TailKeepsShape(s, m);
    } else if p.DeqReady? || p.DeqRead? {
      CopyKeepsShape(s, m);
    } else if p.DeqCopied? {
      CutKeepsShape(s, m);
    } else if p.DeqCut? {
      FreeKeepsShape(s, m);
    } else if p.DeqFreed? {
      TailBackKeepsShape(s, m);
    } else if p.DeqRemoved? {
      LeavingKeepsShape(s, m);
    } else if Enqueues(p) {
      EnqueueKeepsShape(s, m);
    } else {
      DequeueKeepsShape(s, m);
    }
  }

  lemma StepInv(s: State, m: Move)
    requires Inv(s) && Can(s, m)
    ensures Inv(Do(s, m)) && Do(s, m).capacity == s.capacity
  {
    LocksKept(s, m);
    CountsKept(s, m);
    ShapeKept(s, m);
  }

  lemma {:induction false} RunInv(s: State, moves: seq<Move>)
    requires Inv(s) && Runs(s, moves)
    ensures Inv(After(s, moves)) && After(s, moves).capacity == s.capacity
    decreases |moves|
  {
    if moves != [] {
      StepInv(s, moves[0]);
      RunInv(Do(s, moves[0]), moves[1..]);
    }
  }

  // ---------- what holds in every interleaving ----------

  ghost predicate Reachable(s: State) {
    exists capacity, threads, dummy, moves ::
      dummy != NULL && Runs(Initial(capacity, threads, dummy), moves) && s == After(Initial(capacity, threads, dummy), moves)
  }

  lemma ReachableInv(s: State)
    requires Reachable(s)
    ensures Inv(s)
  {
    var capacity, threads, dummy, moves :|
      dummy != NULL && Runs(Initial(capacity, threads, dummy), moves) && s == After(Initial(capacity, threads, dummy), moves);
    InitialInv(capacity, threads, dummy);
    RunInv(Initial(capacity, threads, dummy), moves);
  }

  /** The permits are conserved. */
  lemma PermitsConserved(s: State)
    requires Reachable(s)
    ensures s.enqueueSem + s.dequeueSem + ThreadsBetween(s.at) == s.capacity
  {
    ReachableInv(s);
    BetweenIsInHand(s.at);
  }

  /** The list is within the capacity but for the lost items. */
  lemma ListBounded(s: State)
    requires Reachable(s)
    ensures 0 <= Length(s) <= s.capacity + s.lost
    ensures Length(s) <= s.capacity <==> s.lost <= s.enqueueSem + Total(s.at, Slot)
  {
    ReachableInv(s);
  }

  /** First in, first out: what the dequeuers read in the memory is what was inserted, in its order;
      and whenever no write is under way, walking from the head passes exactly the rest. */
  lemma InOrder(s: State)
    requires Reachable(s)
    ensures s.removed <= s.inserted
    ensures !WriterAt(s).EnqHooked? && !ReaderAt(s).DeqCopied? ==> Spells(s.list.cells, s.list.head, s.inserted[|s.removed|..])
  {
    ReachableInv(s);
    if !WriterAt(s).EnqHooked? && !ReaderAt(s).DeqCopied? {
      ChainedSpells(s.list.cells, s.chain, Items(s), 0);
      assert Items(s)[0..] == s.inserted[|s.removed|..];
    }
  }

  /** Where the next item to be returned comes from: a dequeuer reads it at the head. */
  lemma ReadsFirst(s: State, m: Move)
    requires Reachable(s) && Can(s, m) && s.at[m.thread].DeqReady?
    ensures |s.removed| < |s.inserted| && Do(s, m).at[m.thread] == DeqRead(s.at[m.thread].single, s.inserted[|s.removed|])
  {
    ReachableInv(s);
    ReaderFinds(s, m.thread);
    RemovalSteps(s, m);
    HoldersAfter(s, Do(s, m), m.thread);
  }

  /** Whoever holds a lock touches only live nodes; a reader finds an element, and a writer finds the
      last node at the tail. */
  lemma NeverFaults(s: State, t: nat, address: nat)
    requires Reachable(s) && t < |s.at| && address !in s.list.cells && address != NULL
    requires Inserts(s.at[t]) || Removes(s.at[t]) || s.at[t].DeqLocked?
    ensures Can(s, Move(t, Idle, address))
    ensures BeforeCut(s.at[t]) || s.at[t].DeqLocked? ==> Length(s) > 0
    ensures s.at[t].EnqLocked? ==> |s.chain| > 0 && s.list.tail == s.chain[|s.chain| - 1]
  {
    ReachableInv(s);
    HolderLive(s, t, address);
    if BeforeCut(s.at[t]) || s.at[t].DeqLocked? { ReaderFinds(s, t); }
    if s.at[t].EnqLocked? { TailIsLive(s.list, s.chain, Items(s), WriterAt(s), ReaderAt(s)); }
  }

  lemma HolderLive(s: State, t: nat, address: nat)
    requires Inv(s) && t < |s.at| && address !in s.list.cells && address != NULL
    requires Inserts(s.at[t]) || Removes(s.at[t]) || s.at[t].DeqLocked?
    ensures Can(s, Move(t, Idle, address))
  {
    LocksAgree(s);
    if Inserts(s.at[t]) {
      assert WriterAt(s) == s.at[t];
      WriterLive(s.list, s.chain, Items(s), WriterAt(s), ReaderAt(s));
    } else {
      assert ReaderAt(s) == s.at[t];
      if BeforeCut(s.at[t]) { ReaderFinds(s, t); }
      ReaderLive(s.list, s.chain, Items(s), WriterAt(s), ReaderAt(s));
    }
  }

  lemma WriterLive(l: List, chain: seq<nat>, items: seq<Item>, w: Place, r: Place)
    requires ListShape(l, chain, items, w, r) && Inserts(w) && Agree(w, r)
    ensures l.tail in l.cells && (w.EnqAlloced? || w.EnqHooked? ==> w.where in l.cells) && (w.EnqLinked? ==> w.node in l.cells)
  {
    TailIsLive(l, chain, items, w, r);
  }

  lemma ReaderLive(l: List, chain: seq<nat>, items: seq<Item>, w: Place, r: Place)
    requires ListShape(l, chain, items, w, r)
    ensures l.head in l.cells && (r.DeqCut? || r.DeqCopied? ==> r.tmp in l.cells)
    ensures items != [] && !r.DeqCopied? ==> l.cells[l.head] == Cell(Item(items[0]), chain[1]) && chain[1] in l.cells
  {
    assert |chain| > 1 ==> CellAt(l.cells, chain, 1, DataAt(items, 1), NextAt(chain, 1, End(w)));
  }

  /** The nodes that a thread's next access to the list may write, free or rely on. */
  function Touches(s: State, p: Place): set<nat> {
    match p
    case EnqLocked(_) => {s.list.tail}
    case EnqAlloced(_, where, node) => {where, node}
    case EnqHooked(_, where, node) => {where, node}
    case EnqLinked(_, node) => {node}
    case DeqCut(_, _, tmp) => {tmp}
    case _ => if BeforeCut(p) && |s.chain| > 1 then {s.chain[0], s.chain[1]} else {}
  }

  /** Two threads in their critical sections work on different nodes. */
  lemma DisjointNodes(s: State, t: nat, u: nat)
    requires Reachable(s) && t < |s.at| && u < |s.at| && t != u
    ensures Touches(s, s.at[t]) !! Touches(s, s.at[u])
  {
    ReachableInv(s);
    if Removes(s.at[t]) && Inserts(s.at[u]) {
      DisjointFromWriter(s, t, u);
    } else if Removes(s.at[u]) && Inserts(s.at[t]) {
      DisjointFromWriter(s, u, t);
    }
  }

  /** A reader beside a writer does not hold the write lock. */
  lemma DisjointFromWriter(s: State, reader: nat, writer: nat)
    requires Inv(s) && reader < |s.at| && writer < |s.at| && Removes(s.at[reader]) && Inserts(s.at[writer])
    ensures !s.at[reader].single && Touches(s, s.at[reader]) !! Touches(s, s.at[writer])
  {
    assert WriterAt(s) == s.at[writer] && ReaderAt(s) == s.at[reader];
    LocksAgree(s);
    DisjointPlaces(s.list, s.chain, Items(s), s.at[writer], s.at[reader]);
  }

  lemma DisjointPlaces(l: List, chain: seq<nat>, items: seq<Item>, w: Place, r: Place)
    requires ListShape(l, chain, items, w, r) && Inserts(w) && Removes(r) && Agree(w, r)
    ensures l.tail in chain && (w.EnqAlloced? || w.EnqHooked? ==> w.where in chain) && (w.EnqLinked? ==> w.node in chain)
    ensures BeforeCut(r) ==> |chain| > 2 && l.tail != chain[0] && l.tail != chain[1]
    ensures BeforeCut(r) && (w.EnqAlloced? || w.EnqHooked?) ==> w.where != chain[0] && w.where != chain[1] && w.node != chain[0] && w.node != chain[1]
    ensures BeforeCut(r) && w.EnqLinked? ==> w.node != chain[0] && w.node != chain[1]
  {
    TailIsLive(l, chain, items, w, r);
  }

  // ---------- no deadlock ----------

  lemma {:induction false} UnusedAddress(live: set<nat>) returns (a: nat)
    ensures a > 0 && forall x :: x in live ==> x < a
    decreases live
  {
    if live == {} { a := 1; } else {
      var x :| x in live;
      a := UnusedAddress(live - {x});
      if a <= x { a := x + 1; }
      assert forall y :: y in live ==> y == x || y in live - {x};
    }
  }

  /** The holder of a lock that it has not to wait for can go on. */
  lemma HolderGoesOn(s: State, t: nat) returns (m: Move)
    requires Inv(s) && t < |s.at| && (HoldsWrite(s.at[t]) || HoldsRead(s.at[t])) && (s.at[t].DeqSingle? ==> s.writeLock == Free)
    ensures Can(s, m) && m.thread == t
  {
    var a := UnusedAddress(s.list.cells.Keys);
    m := Move(t, Idle, a);
    if Inserts(s.at[t]) || Removes(s.at[t]) || s.at[t].DeqLocked? { HolderLive(s, t, a); }
  }

  /** While somebody is between its wait and its post, somebody in between can go on. */
  lemma NotStuck(s: State, t: nat) returns (m: Move)
    requires Reachable(s) && t < |s.at| && Between(s.at[t])
    ensures Can(s, m) && Between(s.at[m.thread])
  {
    ReachableInv(s);
    if s.writeLock.By? {
      m := HolderGoesOn(s, s.writeLock.thread);
    } else if HoldsRead(s.at[t]) {
      m := HolderGoesOn(s, t);
    } else if s.at[t].DeqPermit? && s.readLock.By? {
      m := HolderGoesOn(s, s.readLock.thread);
    } else {
      m := Move(t, Idle, 0);
    }
  }

  /** Everybody waits for ever only where everybody wants to add to a full queue or take from an empty one. */
  lemma StuckIff(s: State)
    requires Reachable(s) && s.capacity > 0 && |s.at| > 0 && forall t :: 0 <= t < |s.at| ==> s.at[t] != Idle
    ensures (forall m :: !Can(s, m)) <==>
            || ((forall t :: 0 <= t < |s.at| ==> s.at[t].EnqWait?) && s.dequeueSem == s.capacity)
            || ((forall t :: 0 <= t < |s.at| ==> s.at[t].DeqWait?) && s.enqueueSem == s.capacity)
  {
    PermitsConserved(s);
    if forall m :: !Can(s, m) {
      forall t | 0 <= t < |s.at| ensures !Between(s.at[t]) {
        if Between(s.at[t]) { var m := NotStuck(s, t); }
      }
      NobodyBetween(s.at);
      forall t | 0 <= t < |s.at| ensures s.at[t].EnqWait? ==> s.enqueueSem == 0 {
        assert !Can(s, Move(t, Idle, 0));
      }
      forall t | 0 <= t < |s.at| ensures s.at[t].DeqWait? ==> s.dequeueSem == 0 {
        assert !Can(s, Move(t, Idle, 0));
      }
      assert s.at[0].EnqWait? || s.at[0].DeqWait?;
    }
  }

  lemma {:induction false} NobodyBetween(at: seq<Place>)
    requires forall t :: 0 <= t < |at| ==> !Between(at[t])
    ensures ThreadsBetween(at) == 0
    decreases |at|
  {
    if at != [] { NobodyBetween(at[..|at| - 1]); }
  }
}
