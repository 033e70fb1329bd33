/** What the callers of the bounded queue (system_programming/src/producer_consumer/fsq.c) get: every
    item handed in is inserted as it is, every item taken out is returned as it is, and an enqueue
    answers that it failed exactly for the items counted as lost. */
module BoundedQueueAnswers {
  import opened ListMemory
  import opened BoundedQueue

  // ---------- what the threads have in hand ----------

  /** On the way into the list with an item. */
  predicate Brings(p: Place) { p.EnqWait? || p.EnqPermit? || p.EnqLocked? || p.EnqAlloced? || p.EnqHooked? }

  /** On the way from the list to the caller with an item. */
  predicate Carries(p: Place) { p.DeqCut? || p.DeqFreed? || p.DeqRemoved? || p.DeqUnlock? || p.DeqPost? }

  function Bringing(p: Place): multiset<Item> { if Brings(p) then multiset{p.x} else multiset{} }

  function Carrying(p: Place): multiset<Item> { if Carries(p) then multiset{p.x} else multiset{} }

  function InHands(at: seq<Place>, hand: Place -> multiset<Item>): multiset<Item> {
    if at == [] then multiset{} else InHands(at[..|at| - 1], hand) + hand(at[|at| - 1])
  }

  lemma AddToBoth(a: multiset<Item>, b: multiset<Item>, c: multiset<Item>, d: multiset<Item>, more: multiset<Item>)
    requires a + b == c + d
    ensures a + more + b == c + more + d
  {
    assert a + more + b == (a + b) + more && c + more + d == (c + d) + more;
  }

  lemma {:induction false} HandsUpdate(at: seq<Place>, t: nat, p: Place, hand: Place -> multiset<Item>)
    requires t < |at|
    ensures InHands(at[t := p], hand) + hand(at[t]) == InHands(at, hand) + hand(p)
    decreases |at|
  {
    var front := at[..|at| - 1];
    if t == |at| - 1 {
      assert at[t := p][..|at| - 1] == front;
    } else {
      HandsUpdate(front, t, p, hand);
      assert at[t := p][..|at| - 1] == front[t := p];
      AddToBoth(InHands(front[t := p], hand), hand(at[t]), InHands(front, hand), hand(p), hand(at[|at| - 1]));
    }
  }

  lemma {:induction false} NothingInHands(at: seq<Place>, hand: Place -> multiset<Item>)
    requires forall t :: 0 <= t < |at| ==> hand(at[t]) == multiset{}
    ensures InHands(at, hand) == multiset{}
    decreases |at|
  {
    if at != [] { NothingInHands(at[..|at| - 1], hand); }
  }

  /** How many threads are about to answer so. */
  predicate Inserting(p: Place) { p.EnqLinked? || p.EnqInserted? || p.EnqCheck? || p.EnqPost? }

  predicate Failing(p: Place) { p.EnqPost? && !p.ok }

  function HowMany(at: seq<Place>, there: Place -> bool): nat {
    if at == [] then 0 else HowMany(at[..|at| - 1], there) + (if there(at[|at| - 1]) then 1 else 0)
  }

  lemma {:induction false} HowManyUpdate(at: seq<Place>, t: nat, p: Place, there: Place -> bool)
    requires t < |at|
    ensures HowMany(at[t := p], there) + (if there(at[t]) then 1 else 0) == HowMany(at, there) + (if there(p) then 1 else 0)
    decreases |at|
  {
    var front := at[..|at| - 1];
    if t == |at| - 1 {
      assert at[t := p][..|at| - 1] == front;
    } else {
      HowManyUpdate(front, t, p, there);
      assert at[t := p][..|at| - 1] == front[t := p];
    }
  }

  lemma {:induction false} NobodyThere(at: seq<Place>, there: Place -> bool)
    requires forall t :: 0 <= t < |at| ==> !there(at[t])
    ensures HowMany(at, there) == 0
    decreases |at|
  {
    if at != [] { NobodyThere(at[..|at| - 1], there); }
  }

  function Failures(answers: seq<bool>): nat {
    if answers == [] then 0 else Failures(answers[..|answers| - 1]) + (if answers[|answers| - 1] then 0 else 1)
  }

  lemma FailuresNext(answers: seq<bool>, ok: bool)
    ensures Failures(answers + [ok]) == Failures(answers) + (if ok then 0 else 1)
  {
    assert (answers + [ok])[..|answers|] == answers;
  }

  // ---------- the accounting ----------

  /** Nothing is made up or swallowed between a call and the list, or between the list and a return. */
  ghost predicate Accounted(s: State) {
    && multiset(s.calls.offered) == multiset(s.inserted) + InHands(s.at, Bringing)
    && multiset(s.removed) == multiset(s.calls.returned) + InHands(s.at, Carrying)
    && |s.inserted| == |s.calls.answered| + HowMany(s.at, Inserting)
    && s.lost == Failures(s.calls.answered) + HowMany(s.at, Failing)
  }

  /** What one step records. */
  predicate Records(s: State, s': State, p: Place, p': Place) {
    && s'.calls.offered == s.calls.offered + (if p.Idle? && p'.EnqWait? then [p'.x] else [])
    && s'.inserted == s.inserted + (if p.EnqHooked? then [p.x] else [])
    && s'.removed == s.removed + (if p.DeqCopied? then [p.x] else [])
    && s'.calls.returned == s.calls.returned + (if p.DeqPost? then [p.x] else [])
    && s'.calls.answered == s.calls.answered + (if p.EnqPost? then [p.ok] else [])
    && s'.lost == s.lost + (if p.EnqCheck? && p' == EnqPost(false) then 1 else 0)
  }

  /** What it does to the hands of the thread. */
  predicate Hands(p: Place, p': Place) {
    && (Brings(p') <==> (p.Idle? && p'.EnqWait?) || (Brings(p) && !p.EnqHooked?))
    && (Brings(p) && Brings(p') ==> p'.x == p.x)
    && (Carries(p') <==> p.DeqCopied? || (Carries(p) && !p.DeqPost?))
    && (Carries(p') && (Carries(p) || p.DeqCopied?) ==> p'.x == p.x)
    && (Inserting(p') <==> p.EnqHooked? || (Inserting(p) && !p.EnqPost?))
    && (Failing(p') <==> p.EnqCheck? && p' == EnqPost(false))
  }

  lemma StepRecords(s: State, m: Move)
    requires Can(s, m) && m.thread < |Do(s, m).at|
    ensures Records(s, Do(s, m), s.at[m.thread], Do(s, m).at[m.thread])
  {}

  lemma StepHands(s: State, m: Move)
    requires Can(s, m) && m.thread < |Do(s, m).at|
    ensures Hands(s.at[m.thread], Do(s, m).at[m.thread])
  {
    var p, p' := s.at[m.thread], Do(s, m).at[m.thread];
    if Enqueues(p) {
      assert !Carries(p');
    } else if p.Idle? {
      assert p' == m.call;
    } else {
      assert !Brings(p') && !Inserting(p');
    }
  }

  lemma Moved(all: multiset<Item>, there: multiset<Item>, hands: multiset<Item>, all': multiset<Item>, there': multiset<Item>, hands': multiset<Item>,
              h: multiset<Item>, h': multiset<Item>)
    requires all == there + hands && hands' + h == hands + h' && all' + there + h == all + there' + h'
    ensures all' == there' + hands'
  {
    forall x ensures all'[x] == (there' + hands')[x] {
      assert (hands' + h)[x] == (hands + h')[x] && (all' + there + h)[x] == (all + there' + h')[x];
    }
  }

  lemma OfferedAccounted(s: State, s': State, t: nat)
    requires multiset(s.calls.offered) == multiset(s.inserted) + InHands(s.at, Bringing)
    requires t < |s.at| && t < |s'.at| && s'.at == s.at[t := s'.at[t]] && Records(s, s', s.at[t], s'.at[t]) && Hands(s.at[t], s'.at[t])
    ensures multiset(s'.calls.offered) == multiset(s'.inserted) + InHands(s'.at, Bringing)
  {
    HandsUpdate(s.at, t, s'.at[t], Bringing);
    Moved(multiset(s.calls.offered), multiset(s.inserted), InHands(s.at, Bringing), multiset(s'.calls.offered), multiset(s'.inserted), InHands(s'.at, Bringing),
          Bringing(s.at[t]), Bringing(s'.at[t]));
  }

  lemma RemovedAccounted(s: State, s': State, t: nat)
    requires multiset(s.removed) == multiset(s.calls.returned) + InHands(s.at, Carrying)
    requires t < |s.at| && t < |s'.at| && s'.at == s.at[t := s'.at[t]] && Records(s, s', s.at[t], s'.at[t]) && Hands(s.at[t], s'.at[t])
    ensures multiset(s'.removed) == multiset(s'.calls.returned) + InHands(s'.at, Carrying)
  {
    HandsUpdate(s.at, t, s'.at[t], Carrying);
    Moved(multiset(s.removed), multiset(s.calls.returned), InHands(s.at, Carrying), multiset(s'.removed), multiset(s'.calls.returned), InHands(s'.at, Carrying),
          Carrying(s.at[t]), Carrying(s'.at[t]));
  }

  lemma AnswersAccounted(s: State, s': State, t: nat)
    requires |s.inserted| == |s.calls.answered| + HowMany(s.at, Inserting) && s.lost == Failures(s.calls.answered) + HowMany(s.at, Failing)
    requires t < |s.at| && t < |s'.at| && s'.at == s.at[t := s'.at[t]] && Records(s, s', s.at[t], s'.at[t]) && Hands(s.at[t], s'.at[t])
    ensures |s'.inserted| == |s'.calls.answered| + HowMany(s'.at, Inserting) && s'.lost == Failures(s'.calls.answered) + HowMany(s'.at, Failing)
  {
    HowManyUpdate(s.at, t, s'.at[t], Inserting);
    HowManyUpdate(s.at, t, s'.at[t], Failing);
    if s.at[t].EnqPost? {
      FailuresNext(s.calls.answered, s.at[t].ok);
    } else {
      assert s'.calls.answered == s.calls.answered;
    }
  }

  lemma StepAccounted(s: State, m: Move)
    requires Accounted(s) && Can(s, m)
    ensures Accounted(Do(s, m))
  {
    Steps(s, m);
    StepRecords(s, m);
    StepHands(s, m);
    OfferedAccounted(s, Do(s, m), m.thread);
    RemovedAccounted(s, Do(s, m), m.thread);
    AnswersAccounted(s, Do(s, m), m.thread);
  }

  lemma {:induction false} RunAccounted(s: State, moves: seq<Move>)
    requires Accounted(s) && Runs(s, moves)
    ensures Accounted(After(s, moves))
    decreases |moves|
  {
    if moves != [] {
      StepAccounted(s, moves[0]);
      RunAccounted(Do(s, moves[0]), moves[1..]);
    }
  }

  lemma ReachableAccounted(s: State)
    requires Reachable(s)
    ensures Accounted(s)
  {
    var capacity, threads, dummy, moves :|
      dummy != NULL && Runs(Initial(capacity, threads, dummy), moves) && s == After(Initial(capacity, threads, dummy), moves);
    InitialAccounted(capacity, threads, dummy);
    RunAccounted(Initial(capacity, threads, dummy), moves);
  }

  lemma InitialAccounted(capacity: nat, threads: nat, dummy: nat)
    ensures Accounted(Initial(capacity, threads, dummy))
  {
    var at := Initial(capacity, threads, dummy).at;
    NothingInHands(at, Bringing);
    NothingInHands(at, Carrying);
    NobodyThere(at, Inserting);
    NobodyThere(at, Failing);
  }

  // ---------- what is returned ----------

  /** In every reachable state what was taken out has been returned as it was, or is in the hands of a thread. */
  lemma ReturnedAsTaken(s: State)
    requires Reachable(s)
    ensures multiset(s.removed) == multiset(s.calls.returned) + InHands(s.at, Carrying)
  {
    ReachableAccounted(s);
  }

  /** And what was handed in has been inserted as it was, or is in the hands of a thread. */
  lemma InsertedAsOffered(s: State)
    requires Reachable(s)
    ensures multiset(s.calls.offered) == multiset(s.inserted) + InHands(s.at, Bringing)
  {
    ReachableAccounted(s);
  }

  /** When all threads are idle every item handed in has been answered for, the failures are exactly
      the lost ones, and what was returned is a permutation of the front of what was inserted. */
  lemma AllIdle(s: State)
    requires Reachable(s) && forall t :: 0 <= t < |s.at| ==> s.at[t].Idle?
    ensures multiset(s.calls.offered) == multiset(s.inserted) && |s.calls.answered| == |s.inserted| && Failures(s.calls.answered) == s.lost
    ensures s.removed <= s.inserted && multiset(s.calls.returned) == multiset(s.removed)
  {
    ReachableAccounted(s);
    InOrder(s);
    NothingInHands(s.at, Bringing);
    NothingInHands(s.at, Carrying);
    NobodyThere(s.at, Inserting);
    NobodyThere(s.at, Failing);
  }

  /** A dequeuer takes the write lock, too, exactly if it finds one item in the list, or two while the tail is
      about to be moved behind the second. */
  lemma SingleIff(s: State, m: Move)
    requires Reachable(s) && Can(s, m) && s.at[m.thread].DeqLocked?
    ensures Do(s, m).at[m.thread] ==
            if Length(s) == 1 || (Length(s) == 2 && WriterAt(s).EnqLinked?) then DeqSingle else DeqReady(false)
  {
    ReachableInv(s);
    ReaderFinds(s, m.thread);
    LocksAgree(s);
    assert ReaderAt(s) == s.at[m.thread];
    SecondIsTail(s.list, s.chain, Items(s), WriterAt(s), ReaderAt(s));
  }

  lemma SecondIsTail(l: List, chain: seq<nat>, items: seq<Item>, w: Place, r: Place)
    requires ListShape(l, chain, items, w, r) && Agree(w, r) && r.DeqLocked? && TailIndex(chain, w) >= 1
    ensures l.head in l.cells && (l.cells[l.head].next == l.tail <==> TailIndex(chain, w) == 1)
  {
    assert l.cells[l.head].next == chain[1];
  }

  // ---------- in which order ----------

  predicate CarriesLocked(p: Place) { p.DeqCut? || p.DeqFreed? || p.DeqRemoved? || p.DeqUnlock? }

  /** While the read lock is held after the cut, the item in hand is the last one taken out. */
  predicate HoldsLast(s: State) {
    forall t :: 0 <= t < |s.at| && CarriesLocked(s.at[t]) ==> s.removed != [] && s.at[t].x == s.removed[|s.removed| - 1]
  }

  lemma StepHoldsLast(s: State, m: Move)
    requires HoldsLast(s) && Locks(s) && Can(s, m)
    ensures HoldsLast(Do(s, m))
  {
    Steps(s, m);
    StepRecords(s, m);
    StepHands(s, m);
    var s' := Do(s, m);
    assert s.at[m.thread].DeqCopied? ==> s.readLock == By(m.thread);
    forall t | 0 <= t < |s'.at| && CarriesLocked(s'.at[t]) ensures s'.removed != [] && s'.at[t].x == s'.removed[|s'.removed| - 1] {
      assert t != m.thread ==> HoldsRead(s.at[t]) && s.readLock == By(t);
    }
  }

  lemma {:induction false} RunHoldsLast(s: State, moves: seq<Move>)
    requires HoldsLast(s) && Locks(s) && Runs(s, moves)
    ensures HoldsLast(After(s, moves))
    decreases |moves|
  {
    if moves != [] {
      StepHoldsLast(s, moves[0]);
      LocksKept(s, moves[0]);
      RunHoldsLast(Do(s, moves[0]), moves[1..]);
    }
  }

  lemma ReachableHoldsLast(s: State, t: nat)
    requires Reachable(s) && t < |s.at| && CarriesLocked(s.at[t])
    ensures s.removed != [] && s.at[t].x == s.removed[|s.removed| - 1]
  {
    var capacity, threads, dummy, moves :|
      dummy != NULL && Runs(Initial(capacity, threads, dummy), moves) && s == After(Initial(capacity, threads, dummy), moves);
    InitialInv(capacity, threads, dummy);
    RunHoldsLast(Initial(capacity, threads, dummy), moves);
  }

  /** Only thread `d` calls FSQDequeue. */
  predicate OneDequeuer(moves: seq<Move>, d: nat) {
    forall i :: 0 <= i < |moves| && moves[i].call.DeqWait? ==> moves[i].thread == d
  }

  predicate OnItsWay(p: Place) { !p.Idle? && !Enqueues(p) }

  /** What that thread has taken out is what it has returned, in the same order, and the item in its hands. */
  predicate InTurn(s: State, d: nat) {
    && (forall t :: 0 <= t < |s.at| && t != d ==> !OnItsWay(s.at[t]))
    && s.removed == s.calls.returned + (if d < |s.at| && Carries(s.at[d]) then [s.at[d].x] else [])
  }

  lemma StaysEnqueuer(s: State, m: Move)
    requires Can(s, m) && m.thread < |Do(s, m).at| && !OnItsWay(s.at[m.thread]) && !m.call.DeqWait?
    ensures !OnItsWay(Do(s, m).at[m.thread])
  {}

  lemma StepInTurn(s: State, m: Move, d: nat)
    requires InTurn(s, d) && Can(s, m) && (m.call.DeqWait? ==> m.thread == d)
    ensures InTurn(Do(s, m), d)
  {
    Steps(s, m);
    StepRecords(s, m);
    StepHands(s, m);
    if m.thread != d { StaysEnqueuer(s, m); }
  }

  lemma {:induction false} RunInTurn(s: State, moves: seq<Move>, d: nat)
    requires InTurn(s, d) && Runs(s, moves) && OneDequeuer(moves, d)
    ensures InTurn(After(s, moves), d)
    decreases |moves|
  {
    if moves != [] {
      StepInTurn(s, moves[0], d);
      assert forall i :: 0 <= i < |moves[1..]| ==> moves[1..][i] == moves[i + 1];
      RunInTurn(Do(s, moves[0]), moves[1..], d);
    }
  }

  /** With one dequeuer, first in is first out to the caller: what FSQDequeue has returned is a prefix of what was inserted. */
  lemma ReturnedInOrder(capacity: nat, threads: nat, dummy: nat, moves: seq<Move>, d: nat)
    requires dummy != NULL && Runs(Initial(capacity, threads, dummy), moves) && OneDequeuer(moves, d)
    ensures var s := After(Initial(capacity, threads, dummy), moves); s.calls.returned <= s.removed <= s.inserted
  {
    var s := After(Initial(capacity, threads, dummy), moves);
    RunInTurn(Initial(capacity, threads, dummy), moves, d);
    assert Reachable(s);
    InOrder(s);
  }
}
