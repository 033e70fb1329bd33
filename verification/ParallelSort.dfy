/** The multithreaded sort (projects/sorting/src/mt_q_sort.c): threads sort the chunks of the
    array in any interleaving, then the caller merges them. */
module ParallelSort {
  import opened Arithmetic
  import opened MergingWords

  // ---------- the chunks ----------

  function Start(length: nat, n: nat, t: nat): nat
    requires t < n
  {
    t * (length / n)
  }

  function End(length: nat, n: nat, t: nat): nat
    requires t < n
  {
    if t == n - 1 then length else (t + 1) * (length / n)
  }

  lemma ChunkBounds(length: nat, n: nat, t: nat)
    requires t < n
    ensures Start(length, n, t) <= End(length, n, t) <= length
  {
    var c := length / n;
    assert n * c <= length;
    MulMono(t + 1, n, c);
    assert (t + 1) * c == t * c + c;
  }

  lemma NextChunk(length: nat, n: nat, t: nat)
    requires t + 1 < n
    ensures Start(length, n, t + 1) == End(length, n, t) == Start(length, n, t) + length / n
  {
    assert (t + 1) * (length / n) == t * (length / n) + length / n;
  }

  lemma ChunkOrder(length: nat, n: nat, t: nat, u: nat)
    requires t < u < n
    ensures End(length, n, t) <= Start(length, n, u)
  {
    MulMono(t + 1, u, length / n);
  }

  predicate InChunk(length: nat, n: nat, t: nat, k: nat) {
    t < n && Start(length, n, t) <= k < End(length, n, t)
  }

  lemma DivBounds(k: nat, c: nat)
    requires c > 0
    ensures (k / c) * c <= k < (k / c + 1) * c
  {
    assert k == (k / c) * c + k % c;
    assert (k / c + 1) * c == (k / c) * c + c;
  }

  lemma InSomeChunk(length: nat, n: nat, k: nat)
    requires k < length && 0 < n
    ensures exists t: nat :: InChunk(length, n, t, k)
  {
    var c := length / n;
    if k >= (n - 1) * c {
      assert InChunk(length, n, n - 1, k);
    } else {
      assert c > 0;
      var t := k / c;
      DivBounds(k, c);
      if t >= n - 1 { MulMono(n - 1, t, c); }
      assert InChunk(length, n, t, k);
    }
  }

  /** Every index belongs to one chunk and only one. */
  lemma ChunksPartition(length: nat, n: nat, k: nat)
    requires k < length && 0 < n
    ensures exists t: nat :: InChunk(length, n, t, k)
    ensures forall t: nat, u: nat :: InChunk(length, n, t, k) && InChunk(length, n, u, k) ==> t == u
  {
    InSomeChunk(length, n, k);
    forall t: nat, u: nat | InChunk(length, n, t, k) && InChunk(length, n, u, k) ensures t == u {
      if t < u { ChunkOrder(length, n, t, u); }
      if u < t { ChunkOrder(length, n, u, t); }
    }
  }

  function Chunk(s: seq<Word>, n: nat, t: nat): seq<Word>
    requires t < n
  {
    ChunkBounds(|s|, n, t);
    s[Start(|s|, n, t)..End(|s|, n, t)]
  }

  lemma WriteElsewhere(s: seq<Word>, n: nat, t: nat, k: nat, w: Word, u: nat)
    requires t < n && u < n && t != u && k < |s| && InChunk(|s|, n, t, k)
    ensures Chunk(s[k := w], n, u) == Chunk(s, n, u)
  {
    ChunkBounds(|s|, n, u);
    if t < u { ChunkOrder(|s|, n, t, u); } else { ChunkOrder(|s|, n, u, t); }
  }

  // ---------- the threads ----------

  /** The array, what each thread created so far was given, and the threads that have returned. */
  datatype State = State(words: seq<Word>, given: seq<seq<Word>>, finished: set<nat>)

  function Initial(words: seq<Word>): State { State(words, [], {}) }

  predicate CanCreate(s: State, n: nat) { |s.given| < n }

  function Created(s: State, n: nat): State
    requires CanCreate(s, n)
  {
    s.(given := s.given + [Chunk(s.words, n, |s.given|)])
  }

  predicate Running(s: State, t: nat) { t < |s.given| && t !in s.finished }

  /** qsort may write anything, but only into its own chunk. */
  ghost predicate Writes(s: State, s': State, n: nat, t: nat, k: nat, w: Word) {
    && |s.given| <= n && Running(s, t) && k < |s.words| && InChunk(|s.words|, n, t, k)
    && s' == s.(words := s.words[k := w])
  }

  /** When it returns it leaves a sorted arrangement of what it was given. */
  ghost predicate Finishes(s: State, s': State, n: nat, t: nat) {
    && |s.given| <= n && Running(s, t)
    && Sorted(Chunk(s.words, n, t)) && multiset(Chunk(s.words, n, t)) == multiset(s.given[t])
    && s' == s.(finished := s.finished + {t})
  }

  ghost predicate Next(s: State, s': State, n: nat) {
    || (CanCreate(s, n) && s' == Created(s, n))
    || (exists t, k, w :: Writes(s, s', n, t, k, w))
    || (exists t :: Finishes(s, s', n, t))
  }

  ghost predicate IsRun(run: seq<State>, words: seq<Word>, n: nat) {
    && |run| > 0 && run[0] == Initial(words)
    && forall i :: 0 <= i < |run| - 1 ==> Next(run[i], run[i + 1], n)
  }

  predicate Joined(s: State, n: nat) { forall t :: 0 <= t < n ==> t in s.finished }

  // ---------- what every step keeps ----------

  ghost predicate ChunkInv(s: State, words: seq<Word>, n: nat, t: nat)
    requires t < n
  {
    && (t < |s.given| ==> s.given[t] == Chunk(words, n, t))
    && (t >= |s.given| ==> Chunk(s.words, n, t) == Chunk(words, n, t))
    && (t in s.finished ==> t < |s.given| && Sorted(Chunk(s.words, n, t)) && multiset(Chunk(s.words, n, t)) == multiset(Chunk(words, n, t)))
  }

  ghost predicate Inv(s: State, words: seq<Word>, n: nat) {
    && |s.words| == |words| && |s.given| <= n && (forall t <- s.finished :: t < |s.given|)
    && forall t :: 0 <= t < n ==> ChunkInv(s, words, n, t)
  }

  lemma StepInv(s: State, s': State, words: seq<Word>, n: nat)
    requires Inv(s, words, n) && Next(s, s', n)
    ensures Inv(s', words, n)
  {
    if CanCreate(s, n) && s' == Created(s, n) {
      forall t | 0 <= t < n ensures ChunkInv(s', words, n, t) { assert ChunkInv(s, words, n, t); }
    } else if t, k, w :| Writes(s, s', n, t, k, w) {
      forall u | 0 <= u < n ensures ChunkInv(s', words, n, u) {
        assert ChunkInv(s, words, n, u);
        if u != t { WriteElsewhere(s.words, n, t, k, w, u); }
      }
    } else {
      var t :| Finishes(s, s', n, t);
      forall u | 0 <= u < n ensures ChunkInv(s', words, n, u) { assert ChunkInv(s, words, n, u); }
    }
  }

  lemma {:induction false} RunInv(run: seq<State>, words: seq<Word>, n: nat, i: nat)
    requires IsRun(run, words, n) && i < |run|
    ensures Inv(run[i], words, n)
    decreases i
  {
    if i > 0 {
      RunInv(run, words, n, i - 1);
      StepInv(run[i - 1], run[i], words, n);
    }
  }

  // ---------- after the last join ----------

  lemma AddChunk(s: seq<Word>, c: nat, from: nat, chunks: nat)
    requires 0 < c && from + c <= |s| && chunks > 1
    requires Sorted(s[from..from + c]) && ChunksSorted(s[from + c..], c, chunks - 1)
    ensures ChunksSorted(s[from..], c, chunks)
  {
    assert s[from..][..c] == s[from..from + c];
    if from + c < |s| { assert s[from..][c..] == s[from + c..]; }
  }

  lemma {:induction false} ChunksSortedFrom(s: seq<Word>, n: nat, t: nat, c: nat, from: nat)
    requires t < n <= |s| && c == |s| / n && c > 0 && from == Start(|s|, n, t) <= |s|
    requires forall u :: t <= u < n ==> Sorted(Chunk(s, n, u))
    ensures ChunksSorted(s[from..], c, n - t)
    decreases n - t
  {
    ChunkBounds(|s|, n, t);
    assert Sorted(Chunk(s, n, t));
    if t < n - 1 {
      NextChunk(|s|, n, t);
      ChunksSortedFrom(s, n, t + 1, c, from + c);
      AddChunk(s, c, from, n - t);
    } else {
      assert Chunk(s, n, t) == s[from..];
    }
  }

  lemma {:induction false} SameWordsFrom(s: seq<Word>, words: seq<Word>, n: nat, t: nat)
    requires |s| == |words| && t < n && forall u :: t <= u < n ==> multiset(Chunk(s, n, u)) == multiset(Chunk(words, n, u))
    ensures Start(|s|, n, t) <= |s| && multiset(s[Start(|s|, n, t)..]) == multiset(words[Start(|s|, n, t)..])
    decreases n - t
  {
    var from, to := Start(|s|, n, t), End(|s|, n, t);
    ChunkBounds(|s|, n, t);
    assert multiset(Chunk(s, n, t)) == multiset(Chunk(words, n, t));
    assert s[from..] == Chunk(s, n, t) + s[to..] && words[from..] == Chunk(words, n, t) + words[to..];
    if t < n - 1 {
      SameWordsFrom(s, words, n, t + 1);
    }
  }

  /** Whatever the interleaving, the threads leave sorted chunks and lose no word. */
  lemma JoinedChunks(run: seq<State>, words: seq<Word>, n: nat)
    requires IsRun(run, words, n) && 0 < n <= |words| && Joined(run[|run| - 1], n)
    ensures var s := run[|run| - 1].words;
            |s| == |words| && ChunksSorted(s, |s| / n, n) && multiset(s) == multiset(words)
  {
    var last := run[|run| - 1];
    RunInv(run, words, n, |run| - 1);
    forall t | 0 <= t < n
      ensures Sorted(Chunk(last.words, n, t)) && multiset(Chunk(last.words, n, t)) == multiset(Chunk(words, n, t))
    {
      assert ChunkInv(last, words, n, t);
    }
    ChunksSortedFrom(last.words, n, 0, |words| / n, 0);
    SameWordsFrom(last.words, words, n, 0);
    assert last.words[0..] == last.words && words[0..] == words;
  }

  lemma SortedTexts(words: seq<Word>)
    requires Sorted(words)
    ensures forall i, j :: 0 <= i < j < |words| ==> TextsInOrder(words[i].text, words[j].text)
  {
    forall i, j | 0 <= i < j < |words| ensures TextsInOrder(words[i].text, words[j].text) { CompareMeaning(words[i].text, words[j].text); }
  }

  /** `run` is what the threads do between the first pthread_create and the last join. */
  method MTQuickSort(arr: array<Word>, num_of_threads: nat, run: seq<State>) returns (status: int)
    requires 0 < num_of_threads <= arr.Length
    requires IsRun(run, arr[..], num_of_threads) && Joined(run[|run| - 1], num_of_threads)
    modifies arr
    ensures status == 0 && Sorted(arr[..]) && multiset(arr[..]) == multiset(old(arr[..]))
    ensures forall i, j :: 0 <= i < j < arr.Length ==> TextsInOrder(arr[i].text, arr[j].text)
  {
    var after := run[|run| - 1].words;
    JoinedChunks(run, arr[..], num_of_threads);
    for k := 0 to arr.Length
      invariant arr[..k] == after[..k]
    {
      arr[k] := after[k];
    }
    assert arr[..] == after;
    MergeSortedParts(arr, num_of_threads);
    status := 0;
    SortedTexts(arr[..]);
  }

  // ---------- when the merging ends ----------

  /** Where the two loops of MergeSortedParts are. */
  datatype Position = Position(step: nat, i: nat)

  /** One test of the inner loop with its consequence. */
  function Advance(length: nat, p: Position): Position {
    if p.step >= length then p
    else if p.i + p.step < length then Position(p.step, p.i + 2 * p.step)
    else Position(2 * p.step, 0)
  }

  function After(length: nat, p: Position, turns: nat): Position
    decreases turns
  {
    if turns == 0 then p else After(length, Advance(length, p), turns - 1)
  }

  ghost predicate Ends(length: nat, p: Position) { exists turns: nat :: After(length, p, turns).step >= length }

  lemma {:induction false} PositiveStepEnds(length: nat, p: Position)
    requires p.step > 0
    ensures Ends(length, p)
    decreases if p.step < length then length - p.step else 0, if p.i < length then length - p.i else 0
  {
    if p.step >= length {
      assert After(length, p, 0).step >= length;
    } else {
      var q := Advance(length, p);
      PositiveStepEnds(length, q);
      var turns: nat :| After(length, q, turns).step >= length;
      assert After(length, p, turns + 1).step >= length;
    }
  }

  lemma {:induction false} ZeroStepStays(length: nat, turns: nat)
    requires length > 0
    ensures After(length, Position(0, 0), turns) == Position(0, 0)
    decreases turns
  {
    if turns > 0 { ZeroStepStays(length, turns - 1); }
  }

  /** With more threads than words the chunks are empty and the merging loops forever. */
  lemma MergingEndsIff(length: nat, n: nat)
    requires length > 0 && n > 0
    ensures (n == 1 || Ends(length, Position(length / n, 0))) <==> n <= length
  {
    if n <= length {
      PositiveStepEnds(length, Position(length / n, 0));
    } else {
      forall turns: nat ensures After(length, Position(length / n, 0), turns).step < length {
        ZeroStepStays(length, turns);
      }
    }
  }
}
