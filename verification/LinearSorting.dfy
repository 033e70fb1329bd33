/** The linear sorts (projects/sorting/src/linear_sorting.c): counting sort by value, and
    radix sort by decimal digits, which is a run of stable counting passes. */
module LinearSorting {
  import opened Arithmetic
  import opened CountingByKey

  predicate Sorted(s: seq<int>) { forall i, j :: 0 <= i < j < |s| ==> s[i] <= s[j] }

  // ---------- counting sort ----------

  lemma GatheredByValue(s: seq<int>, key: int -> nat, min: int, range: nat)
    requires KeysBelow(s, key, range) && forall x :: x in s ==> key(x) == x - min
    ensures Sorted(Gathered(s, key, range)) && multiset(Gathered(s, key, range)) == multiset(s)
  {
    var value: int -> int := x => x;
    GatheredSorted(s, key, range, _ => 0, value);
    GatheredPermutes(s, key, range);
    var r := Gathered(s, key, range);
    assert forall i, j :: 0 <= i < j < |r| ==> value(r[i]) <= value(r[j]);
  }

  method MinAndMax(arr: array<int>) returns (min: int, max: int)
    requires arr.Length > 0
    ensures forall x :: x in arr[..] ==> min <= x <= max
    ensures min in arr[..] && max in arr[..]
  {
    max, min := arr[0], arr[0];
    for i := 1 to arr.Length
      invariant min in arr[..] && max in arr[..] && forall j :: 0 <= j < i ==> min <= arr[j] <= max
    {
      if arr[i] > max {
        max := arr[i];
      }
      if arr[i] < min {
        min := arr[i];
      }
    }
  }

  method CountingSort(arr: array<int>)
    requires arr.Length > 0
    modifies arr
    ensures Sorted(arr[..]) && multiset(arr[..]) == multiset(old(arr[..]))
  {
    var min, max := MinAndMax(arr);
    var key := x => if x < min then 0 else x - min;
    assert forall i :: 0 <= i < arr.Length ==> arr[i] in arr[..];
    GatheredByValue(arr[..], key, min, max - min + 1);
    SortByKey(arr, key, max - min + 1);
  }

  // ---------- radix sort ----------

  const BASE := 10

  function Digit(x: int, exp: nat): nat
    requires exp > 0
  {
    if x < 0 then 0 else x / exp % BASE
  }

  /** Ascending by the digits below `m`, a power of ten. */
  predicate SortedMod(s: seq<int>, m: nat)
    requires m > 0
  {
    forall i, j :: 0 <= i < j < |s| ==> s[i] % m <= s[j] % m
  }

  predicate NonNegative(s: seq<int>) { forall i :: 0 <= i < |s| ==> s[i] >= 0 }

  /** The digit and the lower digits make up the remainder by the next power. */
  lemma ModStep(x: nat, m: nat)
    requires m > 0
    ensures x % (BASE * m) == Digit(x, m) * m + x % m
  {
    var q, d, r := x / m / BASE, Digit(x, m), x % m;
    assert x / m == q * BASE + d;
    assert x == (x / m) * m + r;
    assert x == q * (BASE * m) + (d * m + r) by {
      assert (q * BASE + d) * m == q * (BASE * m) + d * m;
    }
    MulMono(d + 1, BASE, m);
    assert (d + 1) * m == d * m + m;
    ModUnique(q, BASE * m, d * m + r);
  }

  lemma DigitDecides(x: nat, y: nat, m: nat)
    requires m > 0 && (Digit(x, m) < Digit(y, m) || (Digit(x, m) == Digit(y, m) && x % m <= y % m))
    ensures x % (BASE * m) <= y % (BASE * m)
  {
    ModStep(x, m);
    ModStep(y, m);
    if Digit(x, m) < Digit(y, m) {
      MulMono(Digit(x, m) + 1, Digit(y, m), m);
      assert (Digit(x, m) + 1) * m == Digit(x, m) * m + m;
    }
  }

  /** A pass over an array sorted by its lower digits sorts it by one digit more. */
  lemma PassSorts(s: seq<int>, key: int -> nat, exp: nat, base: nat)
    requires exp > 0 && NonNegative(s) && SortedMod(s, exp) && (forall x :: key(x) == Digit(x, exp)) && base == BASE
    ensures KeysBelow(s, key, base)
    ensures SortedMod(Gathered(s, key, base), BASE * exp) && multiset(Gathered(s, key, base)) == multiset(s)
  {
    var lower: int -> int := x => x % exp;
    var more: int -> int := x => x % (BASE * exp);
    assert Refines(s, key, lower, more) by {
      forall x, y | x in s && y in s && (key(x) < key(y) || (key(x) == key(y) && lower(x) <= lower(y))) ensures more(x) <= more(y) {
        DigitDecides(x, y, exp);
      }
    }
    assert SortedBy(s, lower);
    GatheredSorted(s, key, base, lower, more);
    GatheredPermutes(s, key, base);
    ModsAscend(Gathered(s, key, base), more, BASE * exp);
  }

  lemma ModsAscend(s: seq<int>, rank: int -> int, m: nat)
    requires m > 0 && SortedBy(s, rank) && forall x :: rank(x) == x % m
    ensures SortedMod(s, m)
  {}

  /** One pass by the digit at `exp`. */
  method CountingSortDigit(arr: array<int>, exp: nat)
    requires exp > 0 && NonNegative(arr[..]) && SortedMod(arr[..], exp)
    modifies arr
    ensures SortedMod(arr[..], BASE * exp)
    ensures multiset(arr[..]) == multiset(old(arr[..]))
    ensures exists key: int -> nat :: (forall x :: key(x) == Digit(x, exp)) && arr[..] == Gathered(old(arr[..]), key, BASE)
  {
    var key := x => Digit(x, exp);
    PassSorts(arr[..], key, exp, BASE);
    SortByKey(arr, key, BASE);
  }

  method GetMax(arr: array<int>) returns (max: int)
    requires arr.Length > 0
    ensures max in arr[..] && forall x :: x in arr[..] ==> x <= max
  {
    max := arr[0];
    for i := 1 to arr.Length
      invariant max in arr[..] && forall j :: 0 <= j < i ==> arr[j] <= max
    {
      if arr[i] > max {
        max := arr[i];
      }
    }
  }

  const LIMIT := 1_000_000_000

  predicate PowerUpToLimit(exp: nat) {
    exp in {1, 10, 100, 1000, 10_000, 100_000, 1_000_000, 10_000_000, 100_000_000, LIMIT}
  }

  /** `exp` never exceeds 10^9, so that it stays within an int. */
  method RadixSort(arr: array<int>)
    requires arr.Length > 0 && forall x :: x in arr[..] ==> 0 <= x < LIMIT
    modifies arr
    ensures Sorted(arr[..]) && multiset(arr[..]) == multiset(old(arr[..]))
  {
    ghost var s := arr[..];
    var max := GetMax(arr);
    var exp: nat := 1;
    while max / exp > 0
      invariant PowerUpToLimit(exp) && SortedMod(arr[..], exp) && multiset(arr[..]) == multiset(s)
      decreases LIMIT - exp
    {
      StillNonNegative(arr[..], s);
      CountingSortDigit(arr, exp);
      exp := exp * BASE;
    }
    SortedOutright(arr[..], s, exp);
  }

  lemma StillNonNegative(s: seq<int>, s0: seq<int>)
    requires multiset(s) == multiset(s0) && forall x :: x in s0 ==> x >= 0
    ensures NonNegative(s)
  {
    forall i | 0 <= i < |s| ensures s[i] >= 0 {
      assert s[i] in multiset(s);
      assert s[i] in s0;
    }
  }

  lemma SortedOutright(s: seq<int>, s0: seq<int>, exp: nat)
    requires exp > 0 && SortedMod(s, exp) && multiset(s) == multiset(s0) && forall x :: x in s0 ==> 0 <= x < exp
    ensures Sorted(s)
  {
    forall i | 0 <= i < |s| ensures s[i] % exp == s[i] {
      assert s[i] in multiset(s);
      assert s[i] in s0;
      ModUnique(0, exp, s[i]);
    }
  }
}
