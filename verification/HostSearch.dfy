/** Which host an insertion into the trie finds (projects/dhcp/src/trie.c), in terms of the hosts that
    are taken and of those that were ever inserted, whose paths are in the trie for good. */
module HostSearch {
  import opened Wrappers
  import opened Bits

  /** Bit `index` of the host is clear, and some host ever inserted agrees with it above that bit and
      has it set: only then is there a right child to go to. */
  ghost predicate IsPivot(ever: set<nat>, host: nat, index: nat) {
    !IsBitSet(host, index) && exists e :: e in ever && Agrees(e, host, index)
  }

  predicate Agrees(e: nat, host: nat, index: nat) { Shr(e, index + 1) == Shr(host, index + 1) && IsBitSet(e, index) }

  /** The lowest pivot among the bits `from..bits`. */
  ghost function LowestPivot(ever: set<nat>, host: nat, from: nat, bits: nat): (p: Option<nat>)
    ensures p.Some? ==> from <= p.value < bits && IsPivot(ever, host, p.value)
    decreases bits - from
  {
    if from >= bits then None
    else if IsPivot(ever, host, from) then Some(from)
    else LowestPivot(ever, host, from + 1, bits)
  }

  /** The host itself if it is free; else the search goes on with the lowest pivot bit set, below that bit. */
  ghost function NextHost(ever: set<nat>, hosts: set<nat>, host: nat, bits: nat): Option<nat>
    decreases bits
  {
    if host !in hosts then Some(host)
    else match LowestPivot(ever, host, 0, bits)
      case None => None
      case Some(index) => NextHost(ever, hosts, host + Pow2(index), index)
  }

  /** The candidates of the search, whatever is taken. */
  ghost function Tried(ever: set<nat>, host: nat, bits: nat): (s: seq<nat>)
    ensures s != [] && s[0] == host
    decreases bits
  {
    match LowestPivot(ever, host, 0, bits)
    case None => [host]
    case Some(index) => [host] + Tried(ever, host + Pow2(index), index)
  }

  predicate FirstFree(s: seq<nat>, hosts: set<nat>, i: nat) {
    i < |s| && s[i] !in hosts && forall j :: 0 <= j < i ==> s[j] in hosts
  }

  predicate AllTaken(s: seq<nat>, hosts: set<nat>) { forall i :: 0 <= i < |s| ==> s[i] in hosts }

  ghost predicate FoundIn(s: seq<nat>, hosts: set<nat>, h: nat) {
    exists i: nat :: FirstFree(s, hosts, i) && s[i] == h
  }

  /** The search finds the first free candidate, and nothing exactly if all of them are taken. */
  lemma {:induction false} NextHostIsFirstFree(ever: set<nat>, hosts: set<nat>, host: nat, bits: nat)
    ensures NextHost(ever, hosts, host, bits) == None <==> AllTaken(Tried(ever, host, bits), hosts)
    ensures NextHost(ever, hosts, host, bits).Some? ==> FoundIn(Tried(ever, host, bits), hosts, NextHost(ever, hosts, host, bits).value)
    decreases bits
  {
    var s := Tried(ever, host, bits);
    if host !in hosts {
      assert FirstFree(s, hosts, 0);
    } else if LowestPivot(ever, host, 0, bits).Some? {
      var p := LowestPivot(ever, host, 0, bits).value;
      NextHostIsFirstFree(ever, hosts, host + Pow2(p), p);
      AllTakenBehind(host, Tried(ever, host + Pow2(p), p), hosts);
      if NextHost(ever, hosts, host, bits).Some? {
        FoundBehind(host, Tried(ever, host + Pow2(p), p), hosts, NextHost(ever, hosts, host, bits).value);
      }
    }
  }

  lemma AllTakenBehind(host: nat, s: seq<nat>, hosts: set<nat>)
    requires host in hosts
    ensures AllTaken([host] + s, hosts) <==> AllTaken(s, hosts)
  {
    forall i | 0 <= i < |s| ensures ([host] + s)[i + 1] == s[i] {}
  }

  lemma FoundBehind(host: nat, s: seq<nat>, hosts: set<nat>, h: nat)
    requires host in hosts && FoundIn(s, hosts, h)
    ensures FoundIn([host] + s, hosts, h)
  {
    var i: nat :| FirstFree(s, hosts, i) && s[i] == h;
    assert FirstFree([host] + s, hosts, i + 1);
  }

  lemma {:induction false} LowestIs(ever: set<nat>, host: nat, from: nat, p: nat, bits: nat)
    requires from <= p < bits && IsPivot(ever, host, p) && forall q :: from <= q < p ==> !IsPivot(ever, host, q)
    ensures LowestPivot(ever, host, from, bits) == Some(p)
    decreases p - from
  {
    if from < p { LowestIs(ever, host, from + 1, p, bits); }
  }

  /** For a taken host the first other candidate has the lowest clear bit set at which some host ever
      inserted went to the right; if that one is free it is given. */
  lemma NearestFirst(ever: set<nat>, hosts: set<nat>, host: nat, bits: nat, p: nat)
    requires host in hosts && p < bits && host + Pow2(p) !in hosts
    requires !IsBitSet(host, p) && exists e :: e in ever && Agrees(e, host, p)
    requires forall q, e :: 0 <= q < p && !IsBitSet(host, q) && e in ever ==> !Agrees(e, host, q)
    ensures NextHost(ever, hosts, host, bits) == Some(host + Pow2(p))
  {
    LowestIs(ever, host, 0, p, bits);
  }

  /** The candidates ascend from the host asked for, within the range, and differ from it below `bits`. */
  lemma {:induction false} TriedAscends(ever: set<nat>, host: nat, bits: nat, depth: nat)
    requires bits <= depth && host < Pow2(depth)
    ensures forall i :: 0 <= i < |Tried(ever, host, bits)| ==> host <= Tried(ever, host, bits)[i] < Pow2(depth)
    ensures forall i, j :: 0 <= i < j < |Tried(ever, host, bits)| ==> Tried(ever, host, bits)[i] < Tried(ever, host, bits)[j]
    decreases bits
  {
    if LowestPivot(ever, host, 0, bits).Some? {
      var p := LowestPivot(ever, host, 0, bits).value;
      SetBitWithin(host, p, depth);
      TriedAscends(ever, host + Pow2(p), p, depth);
    }
  }

  lemma {:induction false} TriedAgrees(ever: set<nat>, host: nat, bits: nat, x: nat)
    requires x in Tried(ever, host, bits)
    ensures Shr(x, bits) == Shr(host, bits)
    decreases bits
  {
    if x != host {
      var p := LowestPivot(ever, host, 0, bits).value;
      TriedAgrees(ever, host + Pow2(p), p, x);
      SetBit(host, p);
      SameAbove(x, host + Pow2(p), p, p + 1);
      SameAbove(x, host, p + 1, bits);
    }
  }

  /** What an insertion finds is free, in range, the host asked for if that is free and else a greater one. */
  lemma NextHostMeaning(ever: set<nat>, hosts: set<nat>, host: nat, bits: nat, depth: nat)
    requires host < Pow2(depth) && bits <= depth
    ensures match NextHost(ever, hosts, host, bits)
            case None => host in hosts
            case Some(h) => h !in hosts && host <= h < Pow2(depth) && (h == host <==> host !in hosts)
  {
    NextHostIsFirstFree(ever, hosts, host, bits);
    TriedAscends(ever, host, bits, depth);
  }

  lemma {:induction false} LowestPivotBelow(ever: set<nat>, host: nat, from: nat, bits: nat)
    requires from <= bits && IsBitSet(host, bits)
    ensures LowestPivot(ever, host, from, bits + 1) == LowestPivot(ever, host, from, bits)
    decreases bits - from
  {
    if from < bits { LowestPivotBelow(ever, host, from + 1, bits); }
  }

  // ---------- asking again and again ----------

  lemma {:induction false} LowestPivotSame(ever: set<nat>, x: nat, host: nat, from: nat, bits: nat)
    requires forall i :: from <= i < bits ==> (IsPivot(ever + {x}, host, i) <==> IsPivot(ever, host, i))
    ensures LowestPivot(ever + {x}, host, from, bits) == LowestPivot(ever, host, from, bits)
    decreases bits - from
  {
    if from < bits { LowestPivotSame(ever, x, host, from + 1, bits); }
  }

  lemma {:induction false} LowestPivotCut(ever: set<nat>, x: nat, host: nat, from: nat, p: nat, bits: nat)
    requires from <= p < bits && LowestPivot(ever, host, from, bits) == Some(p)
    requires forall i :: from <= i < p ==> (IsPivot(ever + {x}, host, i) <==> IsPivot(ever, host, i))
    ensures LowestPivot(ever + {x}, host, from, bits) == Some(p)
    decreases p - from
  {
    if from < p {
      LowestPivotCut(ever, x, host, from + 1, p, bits);
    } else {
      assert IsPivot(ever + {x}, host, p);
    }
  }

  lemma PivotSame(ever: set<nat>, x: nat, host: nat, index: nat)
    requires IsBitSet(host, index) || !Agrees(x, host, index)
    ensures IsPivot(ever + {x}, host, index) <==> IsPivot(ever, host, index)
  {}

  /** A host that differs above `bits` changes nothing in the search below. */
  lemma {:induction false} TriedElsewhere(ever: set<nat>, x: nat, host: nat, bits: nat)
    requires Shr(x, bits) != Shr(host, bits)
    ensures Tried(ever + {x}, host, bits) == Tried(ever, host, bits)
    decreases bits
  {
    forall i | 0 <= i < bits ensures IsPivot(ever + {x}, host, i) <==> IsPivot(ever, host, i) {
      if Shr(x, i + 1) == Shr(host, i + 1) { SameAbove(x, host, i + 1, bits); }
      PivotSame(ever, x, host, i);
    }
    LowestPivotSame(ever, x, host, 0, bits);
    if LowestPivot(ever, host, 0, bits).Some? {
      var p := LowestPivot(ever, host, 0, bits).value;
      SetBit(host, p);
      if Shr(x, p) == Shr(host + Pow2(p), p) {
        SameAbove(x, host + Pow2(p), p, p + 1);
        SameAbove(x, host, p + 1, bits);
      }
      TriedElsewhere(ever, x, host + Pow2(p), p);
    }
  }

  /** The host itself is no pivot for itself, nor is one that has a higher pivot bit set. */
  lemma PivotsBelowSame(ever: set<nat>, x: nat, host: nat, p: nat)
    requires x == host || (Shr(x, p) != Shr(host, p))
    ensures forall i :: 0 <= i < p ==> (IsPivot(ever + {x}, host, i) <==> IsPivot(ever, host, i))
  {
    forall i | 0 <= i < p ensures IsPivot(ever + {x}, host, i) <==> IsPivot(ever, host, i) {
      if x != host && Shr(x, i + 1) == Shr(host, i + 1) { SameAbove(x, host, i + 1, p); }
      PivotSame(ever, x, host, i);
    }
  }

  /** Handing out a candidate does not make new ones. */
  lemma {:induction false} TriedStable(ever: set<nat>, x: nat, host: nat, bits: nat)
    requires x in Tried(ever, host, bits)
    ensures Tried(ever + {x}, host, bits) == Tried(ever, host, bits)
    decreases bits
  {
    match LowestPivot(ever, host, 0, bits)
    case None =>
      PivotsBelowSame(ever, x, host, bits);
      LowestPivotSame(ever, x, host, 0, bits);
    case Some(p) =>
      var next := host + Pow2(p);
      SetBit(host, p);
      if x != host { TriedAgrees(ever, next, p, x); }
      PivotsBelowSame(ever, x, host, p);
      LowestPivotCut(ever, x, host, 0, p, bits);
      if x == host {
        TriedElsewhere(ever, x, next, p);
      } else {
        TriedStable(ever, x, next, p);
      }
      TriedNext(ever, host, bits, p);
      TriedNext(ever + {x}, host, bits, p);
  }

  lemma {:induction false} TriedNext(ever: set<nat>, host: nat, bits: nat, p: nat)
    requires p < bits && LowestPivot(ever, host, 0, bits) == Some(p)
    ensures Tried(ever, host, bits) == [host] + Tried(ever, host + Pow2(p), p)
  {}

  /** The hosts ever inserted, and those of them that are taken. */
  datatype Book = Book(ever: set<nat>, hosts: set<nat>)

  /** The book after a request for `host`. */
  ghost function Asked(b: Book, host: nat, bits: nat): Book {
    match NextHost(b.ever, b.hosts, host, bits)
    case None => b
    case Some(h) => Book(b.ever + {h}, b.hosts + {h})
  }

  ghost function AskedTimes(b: Book, host: nat, bits: nat, n: nat): Book {
    if n == 0 then b else Asked(AskedTimes(b, host, bits, n - 1), host, bits)
  }

  /** Repeated requests for one host only ever get its candidates of the beginning, in their order. */
  lemma {:induction false} AskedStays(b: Book, host: nat, bits: nat, n: nat)
    ensures var after := AskedTimes(b, host, bits, n);
            && Tried(after.ever, host, bits) == Tried(b.ever, host, bits)
            && b.hosts <= after.hosts <= b.hosts + Elements(Tried(b.ever, host, bits))
    decreases n
  {
    if n > 0 {
      AskedStays(b, host, bits, n - 1);
      var before := AskedTimes(b, host, bits, n - 1);
      NextHostIsFirstFree(before.ever, before.hosts, host, bits);
      if NextHost(before.ever, before.hosts, host, bits).Some? {
        TriedStable(before.ever, NextHost(before.ever, before.hosts, host, bits).value, host, bits);
      }
    }
  }

  /** After as many requests as there are candidates the next one finds nothing. */
  lemma AskedDry(b: Book, host: nat, bits: nat, n: nat)
    requires n >= |Tried(b.ever, host, bits)|
    ensures var after := AskedTimes(b, host, bits, n); NextHost(after.ever, after.hosts, host, bits) == None
  {
    var after := AskedTimes(b, host, bits, n);
    AskedTakes(b, host, bits, n);
    AskedStays(b, host, bits, n);
    NextHostIsFirstFree(after.ever, after.hosts, host, bits);
  }

  lemma {:induction false} AskedTakes(b: Book, host: nat, bits: nat, n: nat)
    ensures forall i :: 0 <= i < |Tried(b.ever, host, bits)| && i < n ==> Tried(b.ever, host, bits)[i] in AskedTimes(b, host, bits, n).hosts
    decreases n
  {
    if n > 0 {
      var before, s := AskedTimes(b, host, bits, n - 1), Tried(b.ever, host, bits);
      AskedTakes(b, host, bits, n - 1);
      AskedStays(b, host, bits, n - 1);
      NextHostIsFirstFree(before.ever, before.hosts, host, bits);
      var found := NextHost(before.ever, before.hosts, host, bits);
      if found.Some? { TakenOneMore(s, before.hosts, found.value, n - 1); }
    }
  }

  lemma TakenOneMore(s: seq<nat>, hosts: set<nat>, h: nat, n: nat)
    requires FoundIn(s, hosts, h) && forall i :: 0 <= i < |s| && i < n ==> s[i] in hosts
    ensures forall i :: 0 <= i < |s| && i < n + 1 ==> s[i] in hosts + {h}
  {
    var j: nat :| FirstFree(s, hosts, j) && s[j] == h;
    assert j >= n;
  }

  function Elements(s: seq<nat>): set<nat> { set x | x in s }

  /** How many of the lowest `bits` bits are clear. */
  function Clear(host: nat, bits: nat): nat {
    if bits == 0 then 0 else Clear(host, bits - 1) + (if IsBitSet(host, bits - 1) then 0 else 1)
  }

  lemma {:induction false} ClearBelow(host: nat, p: nat, bits: nat)
    requires p < bits && !IsBitSet(host, p)
    ensures Clear(host, p) + 1 <= Clear(host, bits)
    ensures Clear(host, p) + 1 == Clear(host, bits) ==> forall i :: p < i < bits ==> IsBitSet(host, i)
    decreases bits
  {
    if p < bits - 1 { ClearBelow(host, p, bits - 1); }
  }

  lemma {:induction false} ClearSame(a: nat, b: nat, bits: nat)
    requires forall i :: 0 <= i < bits ==> (IsBitSet(a, i) <==> IsBitSet(b, i))
    ensures Clear(a, bits) == Clear(b, bits)
    decreases bits
  {
    if bits > 0 { ClearSame(a, b, bits - 1); }
  }

  /** There is a candidate more than clear bits at most, and if there are so many the last has none. */
  lemma {:induction false} TriedFew(ever: set<nat>, host: nat, bits: nat)
    ensures |Tried(ever, host, bits)| <= 1 + Clear(host, bits)
    ensures |Tried(ever, host, bits)| == 1 + Clear(host, bits) ==> AllSet(Tried(ever, host, bits)[|Tried(ever, host, bits)| - 1], bits)
    decreases bits
  {
    match LowestPivot(ever, host, 0, bits)
    case None =>
      NoneClear(host, bits);
    case Some(p) =>
      var next := host + Pow2(p);
      forall i | 0 <= i < p ensures IsBitSet(next, i) <==> IsBitSet(host, i) { SetBitBelow(host, p, i); }
      ClearSame(next, host, p);
      ClearBelow(host, p, bits);
      TriedFew(ever, next, p);
      var s := Tried(ever, next, p);
      if |s| == 1 + Clear(next, p) && Clear(host, p) + 1 == Clear(host, bits) {
        LastAllSet(ever, host, p, bits, s[|s| - 1]);
      }
  }

  lemma {:induction false} NoneClear(host: nat, bits: nat)
    ensures Clear(host, bits) == 0 ==> AllSet(host, bits)
    decreases bits
  {
    if bits > 0 { NoneClear(host, bits - 1); }
  }

  lemma LastAllSet(ever: set<nat>, host: nat, p: nat, bits: nat, x: nat)
    requires p < bits && !IsBitSet(host, p) && x in Tried(ever, host + Pow2(p), p) && AllSet(x, p)
    requires forall i :: p < i < bits ==> IsBitSet(host, i)
    ensures AllSet(x, bits)
  {
    TriedAgrees(ever, host + Pow2(p), p, x);
    SetBit(host, p);
    forall i | p <= i < bits ensures IsBitSet(x, i) {
      SameAbove(x, host + Pow2(p), p, i);
      if p < i {
        SameAbove(host + Pow2(p), host, p + 1, i);
        assert IsBitSet(host, i);
      }
    }
  }
}
