/** Sorting by counting keys (projects/sorting/src/linear_sorting.c): the loops that
    CountingSort and CountingSortDigit have in common, for any key in a small range. */
module CountingByKey {

  /** The elements with key `d`, in their order. */
  function Bucket(s: seq<int>, key: int -> nat, d: nat): seq<int> {
    if s == [] then []
    else
      var front, last := s[..|s| - 1], s[|s| - 1];
      Bucket(front, key, d) + (if key(last) == d then [last] else [])
  }

  /** The elements with keys below `d`, by key, each bucket in its order. */
  function Gathered(s: seq<int>, key: int -> nat, d: nat): seq<int> {
    if d == 0 then [] else Gathered(s, key, d - 1) + Bucket(s, key, d - 1)
  }

  /** How many elements have keys below `d`. */
  function Below(s: seq<int>, key: int -> nat, d: nat): nat {
    if d == 0 then 0 else Below(s, key, d - 1) + |Bucket(s, key, d - 1)|
  }

  predicate KeysBelow(s: seq<int>, key: int -> nat, range: nat) {
    forall i :: 0 <= i < |s| ==> key(s[i]) < range
  }

  // ---------- gathering is a stable rearrangement ----------

  lemma {:induction false} BucketMembers(s: seq<int>, key: int -> nat, d: nat)
    ensures forall x :: x in Bucket(s, key, d) ==> x in s && key(x) == d
    decreases |s|
  {
    if s != [] {
      BucketMembers(s[..|s| - 1], key, d);
      assert s == s[..|s| - 1] + [s[|s| - 1]];
    }
  }

  lemma {:induction false} GatheredMembers(s: seq<int>, key: int -> nat, d: nat)
    ensures forall x :: x in Gathered(s, key, d) ==> x in s && key(x) < d
    decreases d
  {
    if d > 0 {
      GatheredMembers(s, key, d - 1);
      BucketMembers(s, key, d - 1);
    }
  }

  function Count(s: seq<int>, x: int): nat {
    if s == [] then 0 else Count(s[..|s| - 1], x) + (if s[|s| - 1] == x then 1 else 0)
  }

  lemma {:induction false} CountConcat(a: seq<int>, b: seq<int>, x: int)
    ensures Count(a + b, x) == Count(a, x) + Count(b, x)
    decreases |b|
  {
    if b == [] {
      assert a + b == a;
    } else {
      CountConcat(a, b[..|b| - 1], x);
      assert (a + b)[..|a + b| - 1] == a + b[..|b| - 1];
    }
  }

  lemma {:induction false} CountIsMultiplicity(s: seq<int>, x: int)
    ensures Count(s, x) == multiset(s)[x]
    decreases |s|
  {
    if s != [] {
      CountIsMultiplicity(s[..|s| - 1], x);
      assert s == s[..|s| - 1] + [s[|s| - 1]];
    }
  }

  lemma {:induction false} BucketCount(s: seq<int>, key: int -> nat, d: nat, x: int)
    ensures Count(Bucket(s, key, d), x) == if key(x) == d then Count(s, x) else 0
    decreases |s|
  {
    if s != [] {
      var front, last := s[..|s| - 1], s[|s| - 1];
      BucketCount(front, key, d, x);
      CountConcat(Bucket(front, key, d), if key(last) == d then [last] else [], x);
    }
  }

  lemma {:induction false} GatheredCount(s: seq<int>, key: int -> nat, d: nat, x: int)
    ensures Count(Gathered(s, key, d), x) == if key(x) < d then Count(s, x) else 0
    decreases d
  {
    if d > 0 {
      GatheredCount(s, key, d - 1, x);
      BucketCount(s, key, d - 1, x);
      CountConcat(Gathered(s, key, d - 1), Bucket(s, key, d - 1), x);
    }
  }

  lemma SameCounts(a: seq<int>, b: seq<int>)
    requires forall x :: Count(a, x) == Count(b, x)
    ensures multiset(a) == multiset(b) && |a| == |b|
  {
    forall x ensures multiset(a)[x] == multiset(b)[x] {
      CountIsMultiplicity(a, x);
      CountIsMultiplicity(b, x);
    }
    assert multiset(a) == multiset(b);
    assert |multiset(a)| == |a| && |multiset(b)| == |b|;
  }

  /** Nothing is lost or made up. */
  lemma GatheredPermutes(s: seq<int>, key: int -> nat, range: nat)
    requires KeysBelow(s, key, range)
    ensures multiset(Gathered(s, key, range)) == multiset(s) && |Gathered(s, key, range)| == |s|
  {
    forall x ensures Count(Gathered(s, key, range), x) == Count(s, x) {
      GatheredCount(s, key, range, x);
      CountIsMultiplicity(s, x);
      if x in s {
        var i :| 0 <= i < |s| && s[i] == x;
      }
    }
    SameCounts(Gathered(s, key, range), s);
  }

  predicate SortedBy(s: seq<int>, rank: int -> int) { forall i, j :: 0 <= i < j < |s| ==> rank(s[i]) <= rank(s[j]) }

  lemma AppendSorted(a: seq<int>, b: seq<int>, rank: int -> int)
    requires SortedBy(a, rank) && SortedBy(b, rank) && forall x, y :: x in a && y in b ==> rank(x) <= rank(y)
    ensures SortedBy(a + b, rank)
  {
    forall i, j | 0 <= i < j < |a + b| ensures rank((a + b)[i]) <= rank((a + b)[j]) {
      if j < |a| {
        assert (a + b)[i] == a[i] && (a + b)[j] == a[j];
      } else if |a| <= i {
        assert (a + b)[i] == b[i - |a|] && (a + b)[j] == b[j - |a|];
      } else {
        var x, y := (a + b)[i], (a + b)[j];
        assert x == a[i] && y == b[j - |a|];
        assert x in a && y in b;
      }
    }
  }

  /** Within a bucket the order of before is kept: this is what stability is for. */
  lemma {:induction false} BucketSorted(s: seq<int>, key: int -> nat, d: nat, rank: int -> int)
    requires SortedBy(s, rank)
    ensures SortedBy(Bucket(s, key, d), rank)
    decreases |s|
  {
    if s != [] {
      var front, last := s[..|s| - 1], s[|s| - 1];
      BucketSorted(front, key, d, rank);
      BucketMembers(front, key, d);
      assert forall x :: x in front ==> rank(x) <= rank(last);
      AppendSorted(Bucket(front, key, d), if key(last) == d then [last] else [], rank);
    }
  }

  /** `fine` orders by the key first and by `coarse` where the keys agree. */
  ghost predicate Refines(s: seq<int>, key: int -> nat, coarse: int -> int, fine: int -> int) {
    forall x, y :: x in s && y in s && (key(x) < key(y) || (key(x) == key(y) && coarse(x) <= coarse(y))) ==> fine(x) <= fine(y)
  }

  lemma BucketSortedFinely(s: seq<int>, key: int -> nat, d: nat, coarse: int -> int, fine: int -> int)
    requires SortedBy(s, coarse) && Refines(s, key, coarse, fine)
    ensures SortedBy(Bucket(s, key, d), fine)
  {
    BucketSorted(s, key, d, coarse);
    BucketMembers(s, key, d);
    var bucket := Bucket(s, key, d);
    forall i, j | 0 <= i < j < |bucket| ensures fine(bucket[i]) <= fine(bucket[j]) {
      var x, y := bucket[i], bucket[j];
      assert x in bucket && y in bucket && coarse(x) <= coarse(y);
    }
  }

  /** Gathering a sequence sorted by `coarse` sorts it by the key and then by `coarse`. */
  lemma {:induction false} GatheredSorted(s: seq<int>, key: int -> nat, d: nat, coarse: int -> int, fine: int -> int)
    requires SortedBy(s, coarse) && Refines(s, key, coarse, fine)
    ensures SortedBy(Gathered(s, key, d), fine)
    decreases d
  {
    if d > 0 {
      GatheredSorted(s, key, d - 1, coarse, fine);
      BucketSortedFinely(s, key, d - 1, coarse, fine);
      GatheredMembers(s, key, d - 1);
      BucketMembers(s, key, d - 1);
      AppendSorted(Gathered(s, key, d - 1), Bucket(s, key, d - 1), fine);
    }
  }

  lemma BucketStep(s: seq<int>, key: int -> nat, i: nat, d: nat)
    requires i < |s|
    ensures Bucket(s[..i + 1], key, d) == Bucket(s[..i], key, d) + (if key(s[i]) == d then [s[i]] else [])
  {
    assert s[..i + 1][..i] == s[..i];
  }

  lemma {:induction false} BucketPrefix(s: seq<int>, key: int -> nat, i: nat, d: nat)
    requires i <= |s|
    ensures Bucket(s[..i], key, d) <= Bucket(s, key, d)
    decreases |s| - i
  {
    if i < |s| {
      BucketPrefix(s, key, i + 1, d);
      BucketStep(s, key, i, d);
    } else {
      assert s[..i] == s;
    }
  }

  lemma {:induction false} BelowIsSize(s: seq<int>, key: int -> nat, d: nat)
    ensures |Gathered(s, key, d)| == Below(s, key, d)
    decreases d
  {
    if d > 0 { BelowIsSize(s, key, d - 1); }
  }

  lemma BelowTotal(s: seq<int>, key: int -> nat, range: nat)
    requires KeysBelow(s, key, range)
    ensures Below(s, key, range) == |s|
  {
    GatheredPermutes(s, key, range);
    BelowIsSize(s, key, range);
  }

  lemma {:induction false} BelowMonotone(s: seq<int>, key: int -> nat, d: nat, e: nat)
    requires d <= e
    ensures Below(s, key, d) <= Below(s, key, e)
    decreases e
  {
    if d < e { BelowMonotone(s, key, d, e - 1); }
  }

  // ---------- counting ----------

  /** After the first loop, count[d] is the number of elements with key d. */
  method CountKeys(arr: array<int>, key: int -> nat, count: array<nat>)
    requires KeysBelow(arr[..], key, count.Length) && forall d :: 0 <= d < count.Length ==> count[d] == 0
    modifies count
    ensures forall d :: 0 <= d < count.Length ==> count[d] == |Bucket(arr[..], key, d)|
  {
    ghost var s := arr[..];
    for i := 0 to arr.Length
      invariant forall d :: 0 <= d < count.Length ==> count[d] == |Bucket(s[..i], key, d)|
    {
      forall d | 0 <= d < count.Length
        ensures |Bucket(s[..i + 1], key, d)| == |Bucket(s[..i], key, d)| + (if key(s[i]) == d then 1 else 0)
      {
        BucketStep(s, key, i, d);
      }
      assert arr[i] == s[i];
      count[key(arr[i])] := count[key(arr[i])] + 1;
    }
    assert s[..arr.Length] == s;
  }

  /** The sum of the first `d` counts. */
  function SumTo(c: seq<nat>, d: nat): nat
    requires d <= |c|
  {
    if d == 0 then 0 else SumTo(c, d - 1) + c[d - 1]
  }

  /** After the second loop, count[d] is the sum of the counts up to d. */
  method AccumulateCounts(count: array<nat>)
    modifies count
    ensures forall d :: 0 <= d < count.Length ==> count[d] == SumTo(old(count[..]), d + 1)
  {
    if count.Length == 0 { return; }
    ghost var c := count[..];
    assert SumTo(c, 1) == SumTo(c, 0) + c[0];
    for i := 1 to count.Length
      invariant forall d :: 0 <= d < i ==> count[d] == SumTo(c, d + 1)
      invariant forall d :: i <= d < count.Length ==> count[d] == c[d]
    {
      count[i] := count[i] + count[i - 1];
    }
  }

  lemma {:induction false} SumIsBelow(c: seq<nat>, s: seq<int>, key: int -> nat, d: nat)
    requires d <= |c| && forall e :: 0 <= e < |c| ==> c[e] == |Bucket(s, key, e)|
    ensures SumTo(c, d) == Below(s, key, d)
    decreases d
  {
    if d > 0 { SumIsBelow(c, s, key, d - 1); }
  }

  // ---------- placing ----------

  /** From its element `from` on, `bucket` stands in `output` at `start`. */
  ghost predicate StandsAt(bucket: seq<int>, from: nat, start: nat, output: seq<int>) {
    && start + |bucket| <= |output|
    && forall q :: from <= q < |bucket| ==> output[start + q] == bucket[q]
  }

  lemma StandsOneMore(bucket: seq<int>, from: nat, start: nat, output: seq<int>, x: int)
    requires StandsAt(bucket, from + 1, start, output) && from < |bucket| && bucket[from] == x
    ensures StandsAt(bucket, from, start, output[start + from := x])
  {}

  lemma StandsStill(bucket: seq<int>, from: nat, start: nat, output: seq<int>, p: nat, x: int)
    requires StandsAt(bucket, from, start, output) && p < |output| && (p < start || start + |bucket| <= p)
    ensures StandsAt(bucket, from, start, output[p := x])
  {}

  lemma PrefixExtends(a: seq<int>, n: nat, b: seq<int>, output: seq<int>)
    requires a <= output && |a| == n && StandsAt(b, 0, n, output)
    ensures a + b <= output
  {}

  /** The part of bucket `d` that comes from the elements from `i` on stands in its place. */
  ghost predicate BucketPlaced(s: seq<int>, key: int -> nat, i: nat, d: nat, output: seq<int>)
    requires i <= |s|
  {
    StandsAt(Bucket(s, key, d), |Bucket(s[..i], key, d)|, Below(s, key, d), output)
  }

  ghost predicate Placed(s: seq<int>, key: int -> nat, i: nat, count: seq<nat>, output: seq<int>)
    requires i <= |s|
  {
    && KeysBelow(s, key, |count|) && |output| == |s|
    && (forall d :: 0 <= d < |count| ==> count[d] == Below(s, key, d) + |Bucket(s[..i], key, d)|)
    && (forall d :: 0 <= d < |count| ==> BucketPlaced(s, key, i, d, output))
  }

  /** Buckets stand side by side ... */
  lemma BucketBefore(s: seq<int>, key: int -> nat, d: nat, e: nat)
    requires d < e
    ensures Below(s, key, d) + |Bucket(s, key, d)| <= Below(s, key, e)
  {
    BelowMonotone(s, key, d + 1, e);
  }

  /** ... within the array. */
  lemma BucketWithin(s: seq<int>, key: int -> nat, range: nat, d: nat)
    requires KeysBelow(s, key, range) && d < range
    ensures Below(s, key, d) + |Bucket(s, key, d)| <= |s|
  {
    BelowTotal(s, key, range);
    BucketBefore(s, key, d, range);
  }

  /** Placing element `i` goes just before what has been placed of its bucket ... */
  lemma PlaceInOwnBucket(s: seq<int>, key: int -> nat, range: nat, i: nat, d: nat, output: seq<int>)
    requires KeysBelow(s, key, range) && i < |s| && d == key(s[i]) < range && |output| == |s| && BucketPlaced(s, key, i + 1, d, output)
    ensures Below(s, key, d) + |Bucket(s[..i], key, d)| < |s|
    ensures BucketPlaced(s, key, i, d, output[Below(s, key, d) + |Bucket(s[..i], key, d)| := s[i]])
  {
    BucketStep(s, key, i, d);
    BucketPrefix(s, key, i + 1, d);
    BucketWithin(s, key, range, d);
    var bucket, from := Bucket(s, key, d), |Bucket(s[..i], key, d)|;
    assert bucket[from] == Bucket(s[..i + 1], key, d)[from] == s[i];
    StandsOneMore(bucket, from, Below(s, key, d), output, s[i]);
  }

  /** ... and touches no other. */
  lemma PlaceBesideBucket(s: seq<int>, key: int -> nat, i: nat, d: nat, e: nat, p: nat, output: seq<int>)
    requires i < |s| && d == key(s[i]) != e && BucketPlaced(s, key, i + 1, e, output)
    requires Below(s, key, d) <= p < Below(s, key, d) + |Bucket(s, key, d)| && p < |output|
    ensures BucketPlaced(s, key, i, e, output[p := s[i]])
  {
    BucketStep(s, key, i, e);
    assert Bucket(s[..i + 1], key, e) == Bucket(s[..i], key, e);
    if d < e {
      BucketBefore(s, key, d, e);
    } else {
      BucketBefore(s, key, e, d);
    }
    StandsStill(Bucket(s, key, e), |Bucket(s[..i], key, e)|, Below(s, key, e), output, p, s[i]);
  }

  lemma PlaceOne(s: seq<int>, key: int -> nat, i: nat, count: seq<nat>, output: seq<int>)
    requires i < |s| && Placed(s, key, i + 1, count, output)
    ensures var d := key(s[i]);
            d < |count| && 0 < count[d] <= |s| && Placed(s, key, i, count[d := count[d] - 1], output[count[d] - 1 := s[i]])
  {
    var d := key(s[i]);
    BucketStep(s, key, i, d);
    PlaceInOwnBucket(s, key, |count|, i, d, output);
    var output' := output[count[d] - 1 := s[i]];
    BucketPrefix(s, key, i + 1, d);
    forall e | 0 <= e < |count| && e != d
      ensures BucketPlaced(s, key, i, e, output') && Bucket(s[..i + 1], key, e) == Bucket(s[..i], key, e)
    {
      BucketStep(s, key, i, e);
      PlaceBesideBucket(s, key, i, d, e, count[d] - 1, output);
    }
  }

  /** When everything has been placed the buckets stand one after the other. */
  /** The whole bucket `d` stands in its place. */
  ghost predicate Stands(s: seq<int>, key: int -> nat, output: seq<int>, d: nat) {
    StandsAt(Bucket(s, key, d), 0, Below(s, key, d), output)
  }

  lemma {:induction false} PlacedWhole(s: seq<int>, key: int -> nat, count: seq<nat>, output: seq<int>, d: nat)
    requires d < |count| && Placed(s, key, 0, count, output)
    ensures Stands(s, key, output, d)
  {
    assert Bucket(s[..0], key, d) == [];
    assert BucketPlaced(s, key, 0, d, output);
  }

  lemma {:induction false} StandUpTo(s: seq<int>, key: int -> nat, output: seq<int>, d: nat)
    requires forall e :: 0 <= e < d ==> Stands(s, key, output, e)
    ensures Gathered(s, key, d) <= output
    decreases d
  {
    if d > 0 {
      StandUpTo(s, key, output, d - 1);
      BelowIsSize(s, key, d - 1);
      assert Stands(s, key, output, d - 1);
      PrefixExtends(Gathered(s, key, d - 1), Below(s, key, d - 1), Bucket(s, key, d - 1), output);
    }
  }

  lemma PlacedAll(s: seq<int>, key: int -> nat, count: seq<nat>, output: seq<int>)
    requires Placed(s, key, 0, count, output)
    ensures output == Gathered(s, key, |count|)
  {
    forall d | 0 <= d < |count| ensures Stands(s, key, output, d) { PlacedWhole(s, key, count, output, d); }
    StandUpTo(s, key, output, |count|);
    GatheredPermutes(s, key, |count|);
  }

  /** The third loop: from the last element to the first, so that equal keys keep their order. */
  method Distribute(arr: array<int>, key: int -> nat, count: array<nat>, output: array<int>)
    requires arr != output && Placed(arr[..], key, arr.Length, count[..], output[..])
    modifies count, output
    ensures output[..] == Gathered(arr[..], key, count.Length)
  {
    ghost var s := arr[..];
    var i: nat := arr.Length;
    while i > 0
      invariant i <= arr.Length && Placed(s, key, i, count[..], output[..])
    {
      i := i - 1;
      ghost var c, o := count[..], output[..];
      PlaceOne(s, key, i, c, o);
      var d := key(arr[i]);
      count[d] := count[d] - 1;
      output[count[d]] := arr[i];
      assert count[..] == c[d := c[d] - 1];
      assert output[..] == o[c[d] - 1 := s[i]];
    }
    PlacedAll(s, key, count[..], output[..]);
  }

  /** The third loop starts with no element placed. */
  lemma NothingPlaced(s: seq<int>, key: int -> nat, count: seq<nat>, output: seq<int>)
    requires KeysBelow(s, key, |count|) && |output| == |s|
    requires forall d :: 0 <= d < |count| ==> count[d] == Below(s, key, d + 1)
    ensures Placed(s, key, |s|, count, output)
  {
    assert s[..|s|] == s;
    forall d | 0 <= d < |count| ensures BucketPlaced(s, key, |s|, d, output) {
      NothingInBucket(s, key, |count|, d, output);
    }
  }

  lemma NothingInBucket(s: seq<int>, key: int -> nat, range: nat, d: nat, output: seq<int>)
    requires KeysBelow(s, key, range) && d < range && |output| == |s|
    ensures BucketPlaced(s, key, |s|, d, output)
  {
    assert s[..|s|] == s;
    BucketWithin(s, key, range, d);
  }

  /** The last loop. */
  method CopyBack(arr: array<int>, output: array<int>)
    requires arr != output && arr.Length == output.Length
    modifies arr
    ensures arr[..] == output[..]
  {
    for k := 0 to arr.Length
      invariant forall j :: 0 <= j < k ==> arr[j] == output[j]
    {
      arr[k] := output[k];
    }
  }

  method SortByKey(arr: array<int>, key: int -> nat, range: nat)
    requires range > 0 && KeysBelow(arr[..], key, range)
    modifies arr
    ensures arr[..] == Gathered(old(arr[..]), key, range)
  {
    var count := new nat[range](_ => 0);
    var output := new int[arr.Length];
    CountKeys(arr, key, count);
    ghost var sizes := count[..];
    AccumulateCounts(count);
    forall d | 0 <= d < range ensures count[d] == Below(arr[..], key, d + 1) {
      SumIsBelow(sizes, arr[..], key, d + 1);
    }
    NothingPlaced(arr[..], key, count[..], output[..]);
    Distribute(arr, key, count, output);
    CopyBack(arr, output);
  }
}
