/** The pool of the variable-size allocator as a list of blocks, and what merging
    neighbouring free blocks means for the space that can be handed out
    (projects/vsa/src/vsa.c).  Lengths are in words of eight bytes. */
module VsaBlocks {

  /** A block: `addr` is the word index of its header, `words` the length of its payload. */
  datatype Block = Block(addr: nat, words: nat, free: bool)

  /** Words taken by a block, header included; `hdr` is the length of a header. */
  function Size(hdr: nat, b: Block): nat { hdr + b.words }

  function Total(hdr: nat, blocks: seq<Block>): nat {
    if blocks == [] then 0 else Size(hdr, blocks[0]) + Total(hdr, blocks[1..])
  }

  function Max(a: nat, b: nat): nat { if a < b then b else a }

  predicate AllFree(blocks: seq<Block>) { forall i :: 0 <= i < |blocks| ==> blocks[i].free }

  /** The size of the longest stretch of free blocks, where `current` words already belong to
      the stretch that the list begins with. */
  function LongestRun(hdr: nat, blocks: seq<Block>, current: nat): nat {
    if blocks == [] then current
    else if blocks[0].free then LongestRun(hdr, blocks[1..], current + Size(hdr, blocks[0]))
    else Max(current, LongestRun(hdr, blocks[1..], 0))
  }

  /** The largest payload that one block could have if every stretch of free blocks were one. */
  function LargestChunk(hdr: nat, blocks: seq<Block>): nat {
    var run := LongestRun(hdr, blocks, 0);
    if run <= hdr then 0 else run - hdr
  }

  // ---------- what the longest run is ----------

  lemma {:induction false} TotalConcat(hdr: nat, a: seq<Block>, b: seq<Block>)
    ensures Total(hdr, a + b) == Total(hdr, a) + Total(hdr, b)
    decreases |a|
  {
    if a == [] {
      assert a + b == b;
    } else {
      assert (a + b)[1..] == a[1..] + b;
      TotalConcat(hdr, a[1..], b);
    }
  }

  lemma {:induction false} LongestRunAtLeast(hdr: nat, blocks: seq<Block>, current: nat)
    ensures LongestRun(hdr, blocks, current) >= current
    decreases |blocks|
  {
    if blocks != [] && blocks[0].free {
      LongestRunAtLeast(hdr, blocks[1..], current + Size(hdr, blocks[0]));
    }
  }

  lemma TailSlice(blocks: seq<Block>, from: nat, to: nat)
    requires 1 <= from <= to <= |blocks|
    ensures blocks[1..][from - 1..to - 1] == blocks[from..to]
  {
  }

  /** No stretch of free blocks is longer ... */
  lemma {:induction false} LongestRunBounds(hdr: nat, blocks: seq<Block>, current: nat, from: nat, to: nat)
    requires from <= to <= |blocks| && AllFree(blocks[from..to])
    ensures Total(hdr, blocks[from..to]) + (if from == 0 then current else 0) <= LongestRun(hdr, blocks, current)
    decreases |blocks|
  {
    if to == 0 {
      LongestRunAtLeast(hdr, blocks, current);
    } else {
      var next := if blocks[0].free then current + Size(hdr, blocks[0]) else 0;
      if from == 0 {
        assert blocks[0..to][0].free;
        assert blocks[0..to][1..] == blocks[1..][0..to - 1];
        assert AllFree(blocks[1..][0..to - 1]);
        LongestRunBounds(hdr, blocks[1..], next, 0, to - 1);
      } else {
        TailSlice(blocks, from, to);
        LongestRunBounds(hdr, blocks[1..], next, from - 1, to - 1);
      }
    }
  }

  /** ... and one is as long. */
  lemma {:induction false} LongestRunReached(hdr: nat, blocks: seq<Block>, current: nat) returns (from: nat, to: nat)
    ensures from <= to <= |blocks| && AllFree(blocks[from..to])
    ensures Total(hdr, blocks[from..to]) + (if from == 0 then current else 0) == LongestRun(hdr, blocks, current)
    decreases |blocks|
  {
    from, to := 0, 0;
    if blocks != [] {
      var next := if blocks[0].free then current + Size(hdr, blocks[0]) else 0;
      var f, t := LongestRunReached(hdr, blocks[1..], next);
      if blocks[0].free && f == 0 {
        from, to := 0, t + 1;
        assert blocks[0..t + 1] == [blocks[0]] + blocks[1..][0..t];
      } else if blocks[0].free || current < LongestRun(hdr, blocks[1..], 0) {
        from, to := f + 1, t + 1;
        assert blocks[f + 1..t + 1] == blocks[1..][f..t];
      }
    }
  }

  // ---------- merging ----------

  function Join(hdr: nat, a: Block, b: Block): Block { Block(a.addr, a.words + Size(hdr, b), true) }

  /** Every stretch of free blocks made into one block. */
  function Merged(hdr: nat, blocks: seq<Block>): seq<Block>
    decreases |blocks|
  {
    if |blocks| < 2 then blocks
    else if blocks[0].free && blocks[1].free then Merged(hdr, [Join(hdr, blocks[0], blocks[1])] + blocks[2..])
    else [blocks[0]] + Merged(hdr, blocks[1..])
  }

  function Largest(blocks: seq<Block>): nat {
    if blocks == [] then 0
    else if blocks[0].free then Max(blocks[0].words, Largest(blocks[1..]))
    else Largest(blocks[1..])
  }

  predicate AllNonempty(blocks: seq<Block>) { forall i :: 0 <= i < |blocks| ==> blocks[i].words > 0 }

  predicate Apart(blocks: seq<Block>) {
    forall i :: 0 <= i < |blocks| - 1 ==> !(blocks[i].free && blocks[i + 1].free)
  }

  /** Merging changes neither the longest run nor the blocks in use, and leaves no two free neighbours. */
  lemma {:induction false} MergedKeeps(hdr: nat, blocks: seq<Block>)
    requires AllNonempty(blocks)
    ensures LongestRun(hdr, Merged(hdr, blocks), 0) == LongestRun(hdr, blocks, 0)
    ensures Live(Merged(hdr, blocks)) == Live(blocks)
    ensures Apart(Merged(hdr, blocks)) && AllNonempty(Merged(hdr, blocks))
    ensures blocks != [] ==> Merged(hdr, blocks) != [] && Merged(hdr, blocks)[0].free == blocks[0].free
    decreases |blocks|
  {
    if |blocks| >= 2 {
      if blocks[0].free && blocks[1].free {
        var joined := [Join(hdr, blocks[0], blocks[1])] + blocks[2..];
        assert joined[1..] == blocks[2..] == blocks[1..][1..];
        assert LongestRun(hdr, joined, 0) == LongestRun(hdr, blocks, 0);
        assert Live(joined) == Live(blocks);
        MergedKeeps(hdr, joined);
      } else {
        var rest := Merged(hdr, blocks[1..]);
        MergedKeeps(hdr, blocks[1..]);
        assert ([blocks[0]] + rest)[1..] == rest;
        if blocks[0].free {
          assert rest[0] == ([blocks[0]] + rest)[1];
        }
      }
    }
  }

  function Live(blocks: seq<Block>): seq<Block> {
    if blocks == [] then []
    else if blocks[0].free then Live(blocks[1..])
    else [blocks[0]] + Live(blocks[1..])
  }

  /** `more` is `fewer` with `b` put in somewhere. */
  ghost predicate Inserted(fewer: seq<Block>, b: Block, more: seq<Block>) {
    exists k :: 0 <= k <= |fewer| && more == fewer[..k] + [b] + fewer[k..]
  }

  lemma InsertedBetween(before: seq<Block>, b: Block, after: seq<Block>)
    ensures Inserted(before + after, b, before + [b] + after)
  {
    var fewer, k := before + after, |before|;
    assert fewer[..k] == before && fewer[k..] == after;
  }

  lemma {:induction false} LargestApart(hdr: nat, blocks: seq<Block>)
    requires AllNonempty(blocks) && Apart(blocks)
    ensures LongestRun(hdr, blocks, 0) == if Largest(blocks) == 0 then 0 else hdr + Largest(blocks)
    decreases |blocks|
  {
    if blocks != [] {
      if blocks[0].free && |blocks| > 1 {
        assert !blocks[1].free && blocks[1..][1..] == blocks[2..];
        LargestApart(hdr, blocks[2..]);
      } else {
        LargestApart(hdr, blocks[1..]);
      }
    }
  }

  /** The largest free block after merging is the largest chunk there was before. */
  lemma LargestOfMerged(hdr: nat, blocks: seq<Block>)
    requires AllNonempty(blocks)
    ensures Largest(Merged(hdr, blocks)) == LargestChunk(hdr, blocks)
  {
    MergedKeeps(hdr, blocks);
    LargestApart(hdr, Merged(hdr, blocks));
  }

  // ---------- searching ----------

  datatype Fit = NoFit | Fit(from: nat, to: nat)

  /** The first stretch of free blocks, cut off as soon as it has `need` words. */
  function FirstFit(hdr: nat, blocks: seq<Block>, from: nat, at: nat, need: nat): (fit: Fit)
    requires from <= at <= |blocks| && AllFree(blocks[from..at])
    ensures fit.Fit? ==> from <= fit.from < fit.to <= |blocks| && AllFree(blocks[fit.from..fit.to]) && Total(hdr, blocks[fit.from..fit.to]) >= need
    decreases |blocks| - at
  {
    if at == |blocks| then NoFit
    else if !blocks[at].free then FirstFit(hdr, blocks, at + 1, at + 1, need)
    else
      assert blocks[from..at + 1] == blocks[from..at] + [blocks[at]];
      if Total(hdr, blocks[from..at + 1]) >= need then Fit(from, at + 1)
      else FirstFit(hdr, blocks, from, at + 1, need)
  }

  /** The search succeeds exactly if some stretch of free blocks is long enough. */
  lemma {:induction false} FirstFitIff(hdr: nat, blocks: seq<Block>, from: nat, at: nat, need: nat)
    requires from <= at <= |blocks| && AllFree(blocks[from..at])
    requires Total(hdr, blocks[from..at]) < need
    ensures FirstFit(hdr, blocks, from, at, need).Fit? <==>
            LongestRun(hdr, blocks[at..], Total(hdr, blocks[from..at])) >= need
    decreases |blocks| - at
  {
    if at < |blocks| {
      assert blocks[at..][1..] == blocks[at + 1..];
      if !blocks[at].free {
        FirstFitIff(hdr, blocks, at + 1, at + 1, need);
      } else {
        assert blocks[from..at + 1] == blocks[from..at] + [blocks[at]];
        TotalConcat(hdr, blocks[from..at], [blocks[at]]);
        if Total(hdr, blocks[from..at + 1]) >= need {
          LongestRunAtLeast(hdr, blocks[at + 1..], Total(hdr, blocks[from..at + 1]));
        } else {
          FirstFitIff(hdr, blocks, from, at + 1, need);
        }
      }
    }
  }

  // ---------- allocating ----------

  /** The block handed out from a run of `run` words at `addr`, and what is split off. */
  function Committed(hdr: nat, addr: nat, run: nat, need: nat): seq<Block>
    requires run >= need + hdr
  {
    if run - hdr - need >= hdr + 1
    then [Block(addr, need, false), Block(addr + hdr + need, run - hdr - need - hdr, true)]
    else [Block(addr, run - hdr, false)]
  }

  /** The block list after a request for `need` words has been served. */
  function Allocated(hdr: nat, blocks: seq<Block>, need: nat): seq<Block> {
    match FirstFit(hdr, blocks, 0, 0, need + hdr + 1)
    case NoFit => blocks
    case Fit(from, to) =>
      blocks[..from] + Committed(hdr, blocks[from].addr, Total(hdr, blocks[from..to]), need) + blocks[to..]
  }

  /** One step of the search. */
  lemma FirstFitStep(hdr: nat, blocks: seq<Block>, from: nat, at: nat, need: nat)
    requires from <= at < |blocks| && AllFree(blocks[from..at])
    ensures blocks[at].free ==> AllFree(blocks[from..at + 1])
    ensures FirstFit(hdr, blocks, from, at, need) ==
            if !blocks[at].free then FirstFit(hdr, blocks, at + 1, at + 1, need)
            else if Total(hdr, blocks[from..at + 1]) >= need then Fit(from, at + 1)
            else FirstFit(hdr, blocks, from, at + 1, need)
  {
    assert blocks[from..at + 1] == blocks[from..at] + [blocks[at]];
  }

  lemma AllocatedAt(hdr: nat, blocks: seq<Block>, need: nat, from: nat, to: nat)
    requires FirstFit(hdr, blocks, 0, 0, need + hdr + 1) == Fit(from, to)
    ensures Allocated(hdr, blocks, need) ==
            blocks[..from] + Committed(hdr, blocks[from].addr, Total(hdr, blocks[from..to]), need) + blocks[to..]
  {
  }

  lemma {:induction false} LiveConcat(a: seq<Block>, b: seq<Block>)
    ensures Live(a + b) == Live(a) + Live(b)
    decreases |a|
  {
    if a == [] {
      assert a + b == b;
    } else {
      assert (a + b)[1..] == a[1..] + b;
      LiveConcat(a[1..], b);
    }
  }

  lemma UpdateSplices(blocks: seq<Block>, k: nat, b: Block)
    requires k < |blocks|
    ensures blocks[k := b] == blocks[..k] + [b] + blocks[k + 1..]
  {
  }

  /** Freeing a block takes it, and nothing else, out of those in use. */
  lemma FreedMeaning(blocks: seq<Block>, k: nat)
    requires k < |blocks| && !blocks[k].free
    ensures Inserted(Live(blocks[k := blocks[k].(free := true)]), blocks[k], Live(blocks))
  {
    var a, c := blocks[..k], blocks[k + 1..];
    var freed := [blocks[k].(free := true)];
    assert blocks == a + [blocks[k]] + c && blocks[k := freed[0]] == a + freed + c;
    Spliced(0, a, [blocks[k]], c);
    Spliced(0, a, freed, c);
    assert Live([blocks[k]]) == [blocks[k]] && Live(freed) == [];
    InsertedBetween(Live(a), blocks[k], Live(c));
    assert Live(a) + [] + Live(c) == Live(a) + Live(c);
  }

  lemma {:induction false} LiveOfFree(blocks: seq<Block>)
    requires AllFree(blocks)
    ensures Live(blocks) == []
    decreases |blocks|
  {
    if blocks != [] { LiveOfFree(blocks[1..]); }
  }

  /** A request is served exactly if the largest chunk has one word to spare. */
  lemma AllocatedIff(hdr: nat, blocks: seq<Block>, need: nat)
    ensures FirstFit(hdr, blocks, 0, 0, need + hdr + 1).Fit? <==> LargestChunk(hdr, blocks) >= need + 1
  {
    assert blocks[0..] == blocks && blocks[0..0] == [];
    FirstFitIff(hdr, blocks, 0, 0, need + hdr + 1);
  }

  /** Serving a request adds one block to those in use, of the length asked for or hardly more,
      keeps all others, and leaves the pool filled. */
  lemma AllocatedMeaning(hdr: nat, blocks: seq<Block>, need: nat)
    ensures Total(hdr, Allocated(hdr, blocks, need)) == Total(hdr, blocks)
    ensures match FirstFit(hdr, blocks, 0, 0, need + hdr + 1)
            case NoFit => Allocated(hdr, blocks, need) == blocks
            case Fit(from, to) =>
              var b := Allocated(hdr, blocks, need)[from];
              && b.addr == blocks[from].addr && need <= b.words <= need + hdr && !b.free
              && Live(blocks) == Live(blocks[..from]) + Live(blocks[to..])
              && Live(Allocated(hdr, blocks, need)) == Live(blocks[..from]) + [b] + Live(blocks[to..])
  {
    match FirstFit(hdr, blocks, 0, 0, need + hdr + 1)
    case NoFit =>
    case Fit(from, to) =>
      CommittedMeaning(hdr, blocks[from].addr, Total(hdr, blocks[from..to]), need);
      var mid := Committed(hdr, blocks[from].addr, Total(hdr, blocks[from..to]), need);
      assert blocks == blocks[..from] + blocks[from..to] + blocks[to..];
      Spliced(hdr, blocks[..from], blocks[from..to], blocks[to..]);
      Spliced(hdr, blocks[..from], mid, blocks[to..]);
      LiveOfFree(blocks[from..to]);
  }

  lemma AllocatedBlock(hdr: nat, blocks: seq<Block>, need: nat) returns (b: Block)
    requires FirstFit(hdr, blocks, 0, 0, need + hdr + 1).Fit?
    ensures Inserted(Live(blocks), b, Live(Allocated(hdr, blocks, need)))
    ensures b.addr == blocks[FirstFit(hdr, blocks, 0, 0, need + hdr + 1).from].addr && need <= b.words <= need + hdr
  {
    AllocatedMeaning(hdr, blocks, need);
    var fit := FirstFit(hdr, blocks, 0, 0, need + hdr + 1);
    b := Allocated(hdr, blocks, need)[fit.from];
    InsertedBetween(Live(blocks[..fit.from]), b, Live(blocks[fit.to..]));
  }

  lemma Spliced(hdr: nat, a: seq<Block>, b: seq<Block>, c: seq<Block>)
    ensures Total(hdr, a + b + c) == Total(hdr, a) + Total(hdr, b) + Total(hdr, c)
    ensures Live(a + b + c) == Live(a) + Live(b) + Live(c)
  {
    TotalConcat(hdr, a + b, c);
    TotalConcat(hdr, a, b);
    LiveConcat(a + b, c);
    LiveConcat(a, b);
  }

  lemma CommittedMeaning(hdr: nat, addr: nat, run: nat, need: nat)
    requires run >= need + hdr + 1
    ensures var mid := Committed(hdr, addr, run, need);
            Total(hdr, mid) == run && Live(mid) == [mid[0]] && mid[0].addr == addr && need <= mid[0].words <= need + hdr && !mid[0].free
  {
    var mid := Committed(hdr, addr, run, need);
    if |mid| == 2 {
      assert Total(hdr, mid[1..]) == Size(hdr, mid[1]) + Total(hdr, mid[1..][1..]);
      assert Live(mid[1..]) == Live(mid[1..][1..]) && mid[1..][1..] == [];
    } else {
      assert mid[1..] == [];
    }
  }
}
