/** The merging half of the multithreaded sort (projects/sorting/src/mt_q_sort.c): Merge and
    MergeSortedParts, which merges neighbouring blocks of doubling length. */
module MergingWords {

  newtype byte = x: int | 0 <= x < 256

  /** A pointer to a word: two pointers may show the same text. */
  datatype Word = Word(address: nat, text: seq<byte>)

  // ---------- the order of words ----------

  /** strcmp, down to its sign. */
  function StringCompare(a: seq<byte>, b: seq<byte>): int {
    if a == [] && b == [] then 0
    else if a == [] then -1
    else if b == [] then 1
    else if a[0] < b[0] then -1
    else if a[0] > b[0] then 1
    else StringCompare(a[1..], b[1..])
  }

  predicate Leq(v: Word, w: Word) { StringCompare(v.text, w.text) <= 0 }

  lemma {:induction false} CompareSwapped(a: seq<byte>, b: seq<byte>)
    ensures StringCompare(a, b) == -StringCompare(b, a)
    decreases |a|
  {
    if a != [] && b != [] && a[0] == b[0] { CompareSwapped(a[1..], b[1..]); }
  }

  lemma {:induction false} CompareTransitive(a: seq<byte>, b: seq<byte>, c: seq<byte>)
    requires StringCompare(a, b) <= 0 && StringCompare(b, c) <= 0
    ensures StringCompare(a, c) <= 0
    decreases |a|
  {
    if a != [] && b != [] && c != [] && a[0] == b[0] == c[0] { CompareTransitive(a[1..], b[1..], c[1..]); }
  }

  /** The texts agree up to where the first one ends, or has the smaller byte. */
  ghost predicate TextsInOrder(a: seq<byte>, b: seq<byte>) { exists i: nat :: InOrderFrom(a, b, i) }

  predicate InOrderFrom(a: seq<byte>, b: seq<byte>, i: nat) {
    i <= |a| && i <= |b| && a[..i] == b[..i] && (i == |a| || (i < |b| && a[i] < b[i]))
  }

  lemma {:induction false} CompareMeaning(a: seq<byte>, b: seq<byte>)
    ensures StringCompare(a, b) <= 0 <==> TextsInOrder(a, b)
    decreases |a|
  {
    if a == [] {
      assert InOrderFrom(a, b, 0);
    } else if b != [] && a[0] < b[0] {
      assert InOrderFrom(a, b, 0);
    } else if b != [] && a[0] == b[0] {
      CompareMeaning(a[1..], b[1..]);
      forall i: nat | InOrderFrom(a[1..], b[1..], i) ensures InOrderFrom(a, b, i + 1) {
        assert a[..i + 1] == [a[0]] + a[1..][..i] && b[..i + 1] == [b[0]] + b[1..][..i];
      }
      forall i: nat | InOrderFrom(a, b, i) ensures i > 0 && InOrderFrom(a[1..], b[1..], i - 1) {
        assert a[1..][..i - 1] == a[..i][1..] && b[1..][..i - 1] == b[..i][1..];
      }
    } else {
      forall i: nat ensures !InOrderFrom(a, b, i) {
        if 0 < i <= |a| && i <= |b| { assert a[..i][0] == a[0] && b[..i][0] == b[0]; }
      }
    }
  }

  predicate Sorted(s: seq<Word>) { forall i, j :: 0 <= i < j < |s| ==> Leq(s[i], s[j]) }

  predicate AtMostAll(v: Word, s: seq<Word>) { forall i :: 0 <= i < |s| ==> Leq(v, s[i]) }

  // ---------- one merge ----------

  /** Two sorted parts made one; of equal words those of the left part come first. */
  function Merged(a: seq<Word>, b: seq<Word>): (r: seq<Word>)
    ensures |r| == |a| + |b|
    decreases |a| + |b|
  {
    if a == [] then b
    else if b == [] then a
    else if Leq(a[0], b[0]) then [a[0]] + Merged(a[1..], b)
    else [b[0]] + Merged(a, b[1..])
  }

  lemma FirstAgain(v: Word, rest: seq<Word>, all: seq<Word>, merged: seq<Word>, other: seq<Word>)
    requires all == [v] + rest && multiset(merged) == multiset(rest) + multiset(other)
    ensures multiset([v] + merged) == multiset(all) + multiset(other)
  {}

  lemma {:induction false} MergedPermutes(a: seq<Word>, b: seq<Word>)
    ensures multiset(Merged(a, b)) == multiset(a) + multiset(b)
    decreases |a| + |b|
  {
    if a != [] && b != [] {
      if Leq(a[0], b[0]) {
        MergedPermutes(a[1..], b);
        FirstAgain(a[0], a[1..], a, Merged(a[1..], b), b);
      } else {
        MergedPermutes(a, b[1..]);
        FirstAgain(b[0], b[1..], b, Merged(a, b[1..]), a);
      }
    }
  }

  lemma LeqMerged(v: Word, a: seq<Word>, b: seq<Word>)
    requires AtMostAll(v, a) && AtMostAll(v, b)
    ensures AtMostAll(v, Merged(a, b))
  {
    MergedPermutes(a, b);
    forall i | 0 <= i < |Merged(a, b)| ensures Leq(v, Merged(a, b)[i]) {
      assert Merged(a, b)[i] in multiset(Merged(a, b));
      assert Merged(a, b)[i] in a || Merged(a, b)[i] in b;
    }
  }

  lemma LeqFromFirst(v: Word, s: seq<Word>)
    requires Sorted(s) && (s != [] ==> Leq(v, s[0]))
    ensures AtMostAll(v, s)
  {
    forall i | 0 < i < |s| ensures Leq(v, s[i]) { CompareTransitive(v.text, s[0].text, s[i].text); }
  }

  lemma SortedCons(v: Word, s: seq<Word>)
    requires Sorted(s) && AtMostAll(v, s)
    ensures Sorted([v] + s)
  {}

  lemma {:induction false} MergedSorted(a: seq<Word>, b: seq<Word>)
    requires Sorted(a) && Sorted(b)
    ensures Sorted(Merged(a, b))
    decreases |a| + |b|
  {
    if a != [] && b != [] {
      CompareSwapped(a[0].text, b[0].text);
      if Leq(a[0], b[0]) {
        MergedSorted(a[1..], b);
        LeqFromFirst(a[0], b);
        LeqMerged(a[0], a[1..], b);
        SortedCons(a[0], Merged(a[1..], b));
      } else {
        MergedSorted(a, b[1..]);
        LeqFromFirst(b[0], a);
        LeqMerged(b[0], a, b[1..]);
        SortedCons(b[0], Merged(a, b[1..]));
      }
    }
  }

  /** What is still to come of `goal` is the merge of s[i..mid] and s[j..end]. */
  ghost predicate Merging(s: seq<Word>, i: nat, mid: nat, j: nat, end: nat, goal: seq<Word>, k: nat) {
    i <= mid <= j <= end <= |s| && k <= |goal| && Merged(s[i..mid], s[j..end]) == goal[k..]
  }

  lemma TakeLeft(s: seq<Word>, i: nat, mid: nat, j: nat, end: nat, goal: seq<Word>, k: nat)
    requires Merging(s, i, mid, j, end, goal, k) && i < mid && (j < end ==> Leq(s[i], s[j]))
    ensures k < |goal| && goal[k] == s[i] && Merging(s, i + 1, mid, j, end, goal, k + 1)
  {
    assert s[i..mid] == [s[i]] + s[i + 1..mid];
    assert Merged(s[i..mid], s[j..end]) == [s[i]] + Merged(s[i + 1..mid], s[j..end]);
    assert goal[k..][1..] == goal[k + 1..];
  }

  lemma TakeRight(s: seq<Word>, i: nat, mid: nat, j: nat, end: nat, goal: seq<Word>, k: nat)
    requires Merging(s, i, mid, j, end, goal, k) && j < end && (i < mid ==> !Leq(s[i], s[j]))
    ensures k < |goal| && goal[k] == s[j] && Merging(s, i, mid, j + 1, end, goal, k + 1)
  {
    assert s[j..end] == [s[j]] + s[j + 1..end];
    assert Merged(s[i..mid], s[j..end]) == [s[j]] + Merged(s[i..mid], s[j + 1..end]);
    assert goal[k..][1..] == goal[k + 1..];
  }

  /** The first `k` places of the buffer are done. */
  ghost predicate Filled(buffer: seq<Word>, goal: seq<Word>, k: nat) {
    k <= |buffer| && k <= |goal| && forall n :: 0 <= n < k ==> buffer[n] == goal[n]
  }

  /** What the first loop of Merge keeps. */
  ghost predicate Underway(s: seq<Word>, i: nat, mid: nat, j: nat, end: nat, goal: seq<Word>, k: nat, buffer: seq<Word>) {
    Merging(s, i, mid, j, end, goal, k) && Filled(buffer, goal, k) && |buffer| == |goal|
  }

  lemma PutNext(s: seq<Word>, i: nat, mid: nat, j: nat, end: nat, goal: seq<Word>, k: nat, buffer: seq<Word>)
    requires Underway(s, i, mid, j, end, goal, k, buffer) && i < mid && j < end
    ensures k < |buffer|
    ensures Leq(s[i], s[j]) ==> Underway(s, i + 1, mid, j, end, goal, k + 1, buffer[k := s[i]])
    ensures !Leq(s[i], s[j]) ==> Underway(s, i, mid, j + 1, end, goal, k + 1, buffer[k := s[j]])
  {
    if Leq(s[i], s[j]) {
      TakeLeft(s, i, mid, j, end, goal, k);
    } else {
      TakeRight(s, i, mid, j, end, goal, k);
    }
  }

  /** The first loop of Merge: it ends when one part has been used up. */
  method MergeWhileBoth(temp: array<Word>, arr: array<Word>, start: nat, mid: nat, end: nat, ghost goal: seq<Word>)
    returns (i: nat, j: nat, k: nat)
    requires start <= mid <= end <= arr.Length && temp != arr
    requires Underway(arr[..], start, mid, mid, end, goal, 0, temp[..])
    modifies temp
    ensures Underway(arr[..], i, mid, j, end, goal, k, temp[..]) && (i == mid || j == end)
  {
    i, j, k := start, mid, 0;
    ghost var s := arr[..];
    while i < mid && j < end
      invariant i <= mid && j <= end
      invariant Underway(s, i, mid, j, end, goal, k, temp[..])
    {
      ghost var buffer := temp[..];
      PutNext(s, i, mid, j, end, goal, k, buffer);
      if Leq(arr[i], arr[j]) {
        temp[k] := arr[i];
        assert temp[..] == buffer[k := s[i]];
        i := i + 1;
      } else {
        temp[k] := arr[j];
        assert temp[..] == buffer[k := s[j]];
        j := j + 1;
      }
      k := k + 1;
    }
  }

  /** The second and the third loop of Merge. */
  method CopyRemaining(temp: array<Word>, k: nat, arr: array<Word>, from: nat, to: nat) returns (k': nat)
    requires from <= to <= arr.Length && temp != arr && k + (to - from) <= temp.Length
    modifies temp
    ensures k' == k + (to - from) && temp[..k'] == old(temp[..k]) + arr[from..to]
  {
    k' := k;
    var i := from;
    while i < to
      invariant from <= i <= to && k' == k + (i - from)
      invariant temp[..k'] == old(temp[..k]) + arr[from..i]
    {
      temp[k'] := arr[i];
      i, k' := i + 1, k' + 1;
    }
  }

  lemma OnePartLeft(s: seq<Word>, i: nat, mid: nat, j: nat, end: nat, goal: seq<Word>, k: nat, buffer: seq<Word>)
    requires Underway(s, i, mid, j, end, goal, k, buffer) && (i == mid || j == end)
    ensures goal == buffer[..k] + s[i..mid] + s[j..end] && k + (mid - i) + (end - j) == |goal|
  {
    assert goal == goal[..k] + goal[k..] && goal[k..] == s[i..mid] + s[j..end];
    assert buffer[..k] == goal[..k];
  }

  method MergeInto(temp: array<Word>, arr: array<Word>, start: nat, mid: nat, end: nat)
    requires start <= mid <= end <= arr.Length && temp != arr && temp.Length == end - start
    modifies temp
    ensures temp[..] == Merged(arr[start..mid], arr[mid..end])
  {
    ghost var goal := Merged(arr[start..mid], arr[mid..end]);
    var i, j, k := MergeWhileBoth(temp, arr, start, mid, end, goal);
    ghost var s, done := arr[..], temp[..k];
    OnePartLeft(s, i, mid, j, end, goal, k, temp[..]);
    k := CopyRemaining(temp, k, arr, i, mid);
    assert temp[..k] == done + s[i..mid];
    k := CopyRemaining(temp, k, arr, j, end);
    assert temp[..k] == done + s[i..mid] + s[j..end];
    assert temp[..] == temp[..k];
  }

  /** The words `s` with the first n of `part` written over them from `start` on. */
  function Overwritten(s: seq<Word>, start: nat, part: seq<Word>, n: nat): (r: seq<Word>)
    requires n <= |part| && start + |part| <= |s|
    ensures |r| == |s|
  {
    s[..start] + part[..n] + s[start + n..]
  }

  lemma OverwriteNext(s: seq<Word>, start: nat, part: seq<Word>, n: nat)
    requires n < |part| && start + |part| <= |s|
    ensures Overwritten(s, start, part, n + 1) == Overwritten(s, start, part, n)[start + n := part[n]]
  {}

  /** Merges arr[start..mid] and arr[mid..end] through a buffer. */
  method Merge(arr: array<Word>, start: nat, mid: nat, end: nat)
    requires start <= mid <= end <= arr.Length
    modifies arr
    ensures arr[..] == old(arr[..start]) + Merged(old(arr[start..mid]), old(arr[mid..end])) + old(arr[end..])
  {
    ghost var s := arr[..];
    var temp := new Word[end - start](_ => Word(0, []));
    ghost var goal := Merged(s[start..mid], s[mid..end]);
    MergeInto(temp, arr, start, mid, end);
    assert arr[start..mid] == s[start..mid] && arr[mid..end] == s[mid..end];
    assert Overwritten(s, start, goal, 0) == s;
    for n := 0 to end - start
      invariant temp[..] == goal && arr[..] == Overwritten(s, start, goal, n)
    {
      arr[start + n] := temp[n];
      OverwriteNext(s, start, goal, n);
    }
    assert goal[..end - start] == goal;
  }

  // ---------- a round of merges ----------

  /** Every block of `step` words, the last one perhaps shorter, is sorted. */
  predicate BlocksSorted(s: seq<Word>, step: nat)
    requires step > 0
    decreases |s|
  {
    if |s| <= step then Sorted(s) else Sorted(s[..step]) && BlocksSorted(s[step..], step)
  }

  function Min(a: nat, b: nat): nat { if a < b then a else b }

  /** Each block merged with its neighbour. */
  function MergeRound(s: seq<Word>, step: nat): (r: seq<Word>)
    requires step > 0
    ensures |r| == |s|
    decreases |s|
  {
    if |s| <= step then s
    else
      var end := Min(2 * step, |s|);
      Merged(s[..step], s[step..end]) + MergeRound(s[end..], step)
  }

  lemma CutTwice(s: seq<Word>, i: nat, j: nat)
    requires i <= j <= |s|
    ensures s == s[..i] + s[i..j] + s[j..]
  {}

  lemma PartsPermute(s: seq<Word>, left: seq<Word>, right: seq<Word>, rest: seq<Word>, merged: seq<Word>, done: seq<Word>)
    requires s == left + right + rest
    requires multiset(merged) == multiset(left) + multiset(right) && multiset(done) == multiset(rest)
    ensures multiset(merged + done) == multiset(s)
  {}

  lemma {:induction false} RoundPermutes(s: seq<Word>, step: nat)
    requires step > 0
    ensures multiset(MergeRound(s, step)) == multiset(s)
    decreases |s|
  {
    if |s| > step {
      var end := Min(2 * step, |s|);
      var left, right, rest := s[..step], s[step..end], s[end..];
      MergedPermutes(left, right);
      RoundPermutes(rest, step);
      CutTwice(s, step, end);
      PartsPermute(s, left, right, rest, Merged(left, right), MergeRound(rest, step));
    }
  }

  lemma {:induction false} RoundSorts(s: seq<Word>, step: nat)
    requires step > 0 && BlocksSorted(s, step)
    ensures BlocksSorted(MergeRound(s, step), 2 * step)
    decreases |s|
  {
    if |s| > step {
      var end := Min(2 * step, |s|);
      var left, right := s[..step], s[step..end];
      assert Sorted(right) && (end < |s| ==> BlocksSorted(s[end..], step)) by {
        assert s[step..][..end - step] == right;
        if end < |s| { assert s[step..][step..] == s[end..]; }
      }
      MergedSorted(left, right);
      if end < |s| {
        RoundSorts(s[end..], step);
        var rest := MergeRound(s[end..], step);
        assert (Merged(left, right) + rest)[..2 * step] == Merged(left, right);
        assert (Merged(left, right) + rest)[2 * step..] == rest;
      } else {
        assert MergeRound(s, step) == Merged(left, right);
      }
    }
  }

  // ---------- all rounds ----------

  /** Rounds with doubling steps until one block is left. */
  function MergeRounds(s: seq<Word>, step: nat): seq<Word>
    requires step > 0
    decreases if |s| < step then 0 else |s| - step
  {
    if step >= |s| then s else MergeRounds(MergeRound(s, step), 2 * step)
  }

  lemma {:induction false} RoundsSort(s: seq<Word>, step: nat)
    requires step > 0 && BlocksSorted(s, step)
    ensures Sorted(MergeRounds(s, step)) && multiset(MergeRounds(s, step)) == multiset(s)
    decreases if |s| < step then 0 else |s| - step
  {
    if step < |s| {
      RoundSorts(s, step);
      RoundPermutes(s, step);
      RoundsSort(MergeRound(s, step), 2 * step);
    }
  }

  /** Blocks before `i` are merged, those from `i` on are to come. */
  ghost predicate InRound(s: seq<Word>, i: nat, step: nat, goal: seq<Word>) {
    step > 0 && if i + step < |s| then s[..i] + MergeRound(s[i..], step) == goal else s == goal
  }

  lemma RoundStep(s: seq<Word>, i: nat, step: nat, goal: seq<Word>, mid: nat, end: nat)
    requires InRound(s, i, step, goal) && mid == i + step < |s| && end == Min(i + 2 * step, |s|)
    ensures InRound(s[..i] + Merged(s[i..mid], s[mid..end]) + s[end..], i + 2 * step, step, goal)
  {
    RoundHead(s[i..], s[i..mid], s[mid..end], s[end..], step);
    RoundStepOf(s[..i], Merged(s[i..mid], s[mid..end]), s[end..], step, goal);
  }

  lemma RoundHead(s: seq<Word>, left: seq<Word>, right: seq<Word>, rest: seq<Word>, step: nat)
    requires 0 < step == |left| < |s| && s == left + right + rest && |left + right| == Min(2 * step, |s|)
    ensures MergeRound(s, step) == Merged(left, right) + MergeRound(rest, step)
  {
    assert s[..step] == left && s[step..|left + right|] == right && s[|left + right|..] == rest;
  }

  lemma RoundStepOf(done: seq<Word>, merged: seq<Word>, rest: seq<Word>, step: nat, goal: seq<Word>)
    requires step > 0 && done + (merged + MergeRound(rest, step)) == goal && |merged| <= 2 * step && (rest == [] || |merged| == 2 * step)
    ensures InRound(done + merged + rest, |done| + 2 * step, step, goal)
  {
    var s := done + merged + rest;
    assert goal == (done + merged) + MergeRound(rest, step);
    if |done| + 2 * step + step < |s| {
      assert s[..|done| + 2 * step] == done + merged && s[|done| + 2 * step..] == rest;
    }
  }

  /** The inner loop: one round over the array. */
  method MergeNeighbours(arr: array<Word>, step: nat)
    requires 0 < step < arr.Length
    modifies arr
    ensures arr[..] == MergeRound(old(arr[..]), step)
  {
    ghost var goal := MergeRound(arr[..], step);
    var i: nat := 0;
    assert arr[..][0..] == arr[..];
    while i + step < arr.Length
      invariant InRound(arr[..], i, step, goal)
      decreases arr.Length - i
    {
      ghost var t := arr[..];
      var mid := i + step;
      var end := if i + 2 * step < arr.Length then i + 2 * step else arr.Length;
      RoundStep(t, i, step, goal, mid, end);
      Merge(arr, i, mid, end);
      assert arr[..] == t[..i] + Merged(t[i..mid], t[mid..end]) + t[end..];
      i := i + 2 * step;
    }
  }

  /** The block structure that the threads leave: `n` chunks of `step` words, the last one longer. */
  predicate ChunksSorted(s: seq<Word>, step: nat, n: nat)
    requires step > 0
    decreases n
  {
    if n <= 1 || |s| <= step then Sorted(s) else Sorted(s[..step]) && ChunksSorted(s[step..], step, n - 1)
  }

  lemma {:induction false} SortedBlocks(s: seq<Word>, step: nat)
    requires step > 0 && Sorted(s)
    ensures BlocksSorted(s, step)
    decreases |s|
  {
    if |s| > step { SortedBlocks(s[step..], step); }
  }

  /** The cuts through the longer last chunk do no harm. */
  lemma {:induction false} ChunksAreBlocks(s: seq<Word>, step: nat, n: nat)
    requires step > 0 && ChunksSorted(s, step, n)
    ensures BlocksSorted(s, step)
    decreases n
  {
    if n <= 1 {
      SortedBlocks(s, step);
    } else if |s| > step {
      ChunksAreBlocks(s[step..], step, n - 1);
    }
  }

  method MergeSortedParts(arr: array<Word>, num_of_threads: nat)
    requires 0 < num_of_threads <= arr.Length && ChunksSorted(arr[..], arr.Length / num_of_threads, num_of_threads)
    modifies arr
    ensures Sorted(arr[..]) && multiset(arr[..]) == multiset(old(arr[..]))
  {
    if num_of_threads == 1 { return; }
    var chunk_size := arr.Length / num_of_threads;
    ghost var s := arr[..];
    ChunksAreBlocks(s, chunk_size, num_of_threads);
    RoundsSort(s, chunk_size);
    var step := chunk_size;
    while step < arr.Length
      invariant step > 0 && MergeRounds(arr[..], step) == MergeRounds(s, chunk_size)
      decreases arr.Length - step
    {
      MergeNeighbours(arr, step);
      step := step * 2;
    }
  }
}
