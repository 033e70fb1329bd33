/** How much space serving a request uses up (projects/vsa/src/vsa.c): the block handed out is hardly
    larger than asked for, the first stretch that is long enough gives it, and the rest stays free. */
module VsaSpace {
  import opened VsaBlocks

  /** The payload words of the free blocks. */
  function FreeWords(blocks: seq<Block>): nat {
    if blocks == [] then 0 else (if blocks[0].free then blocks[0].words else 0) + FreeWords(blocks[1..])
  }

  lemma {:induction false} FreeWordsConcat(a: seq<Block>, b: seq<Block>)
    ensures FreeWords(a + b) == FreeWords(a) + FreeWords(b)
    decreases |a|
  {
    if a == [] {
      assert a + b == b;
    } else {
      assert (a + b)[1..] == a[1..] + b;
      FreeWordsConcat(a[1..], b);
    }
  }

  lemma {:induction false} FreeWordsBelow(hdr: nat, blocks: seq<Block>)
    ensures FreeWords(blocks) <= Total(hdr, blocks)
    ensures AllFree(blocks) && blocks != [] ==> FreeWords(blocks) + hdr <= Total(hdr, blocks)
    decreases |blocks|
  {
    if blocks != [] { FreeWordsBelow(hdr, blocks[1..]); }
  }

  // ---------- the block that is handed out ----------

  /** A run is split when what is left can hold a block, and handed out whole when not. */
  lemma CommittedExact(hdr: nat, addr: nat, run: nat, need: nat)
    requires run >= need + hdr + 1
    ensures run >= need + 2 * hdr + 1 ==>
              Committed(hdr, addr, run, need) == [Block(addr, need, false), Block(addr + hdr + need, run - need - 2 * hdr, true)]
    ensures run < need + 2 * hdr + 1 ==> Committed(hdr, addr, run, need) == [Block(addr, run - hdr, false)]
  {}

  lemma CommittedFree(hdr: nat, addr: nat, run: nat, need: nat)
    requires run >= need + hdr + 1
    ensures FreeWords(Committed(hdr, addr, run, need)) == if run >= need + 2 * hdr + 1 then run - need - 2 * hdr else 0
  {
    var mid := Committed(hdr, addr, run, need);
    CommittedExact(hdr, addr, run, need);
    assert mid == [mid[0]] + mid[1..];
    if |mid| == 2 { assert FreeWords(mid[1..]) == mid[1].words + FreeWords(mid[1..][1..]) && mid[1..][1..] == []; }
  }

  // ---------- the first stretch that is long enough ----------

  predicate StartsRun(blocks: seq<Block>, i: nat) { i <= |blocks| && (i > 0 ==> !blocks[i - 1].free) }

  /** No stretch of free blocks before `end` is long enough. */
  predicate NoneBefore(hdr: nat, blocks: seq<Block>, end: nat, need: nat) {
    end <= |blocks| && LongestRun(hdr, blocks[..end], 0) < need
  }

  lemma NoneBeforeNext(hdr: nat, blocks: seq<Block>, from: nat, at: nat, need: nat)
    requires from <= at < |blocks| && !blocks[at].free && StartsRun(blocks, from) && AllFree(blocks[from..at])
    requires NoneBefore(hdr, blocks, from, need) && Total(hdr, blocks[from..at]) < need
    ensures NoneBefore(hdr, blocks, at + 1, need)
  {
    var before, run, live := blocks[..from], blocks[from..at], [blocks[at]];
    assert blocks[..at + 1] == before + (run + live);
    RunsAround(hdr, before, run + live);
    LongestRunJoins(hdr, run, live, 0);
    assert live[1..] == [];
  }

  lemma StretchBefore(hdr: nat, blocks: seq<Block>, i: nat, j: nat, from: nat, need: nat)
    requires StartsRun(blocks, from) && NoneBefore(hdr, blocks, from, need) && i < from && i < j <= |blocks| && AllFree(blocks[i..j])
    ensures Total(hdr, blocks[i..j]) < need
  {
    assert forall k :: i <= k < j ==> blocks[k] == blocks[i..j][k - i];
    assert blocks[..from][i..j] == blocks[i..j];
    LongestRunBounds(hdr, blocks[..from], 0, i, j);
  }

  /** The search takes the first stretch that is long enough, from where that begins. */
  lemma {:induction false} FirstFitIsFirst(hdr: nat, blocks: seq<Block>, from: nat, at: nat, need: nat)
    requires from <= at <= |blocks| && AllFree(blocks[from..at]) && StartsRun(blocks, from)
    requires NoneBefore(hdr, blocks, from, need) && Total(hdr, blocks[from..at]) < need
    ensures var fit := FirstFit(hdr, blocks, from, at, need);
            fit.Fit? ==> StartsRun(blocks, fit.from) && NoneBefore(hdr, blocks, fit.from, need)
    decreases |blocks| - at
  {
    if at < |blocks| {
      FirstFitStep(hdr, blocks, from, at, need);
      if !blocks[at].free {
        NoneBeforeNext(hdr, blocks, from, at, need);
        assert blocks[at + 1..at + 1] == [];
        FirstFitIsFirst(hdr, blocks, at + 1, at + 1, need);
        assert FirstFit(hdr, blocks, from, at, need) == FirstFit(hdr, blocks, at + 1, at + 1, need);
      } else if Total(hdr, blocks[from..at + 1]) < need {
        FirstFitIsFirst(hdr, blocks, from, at + 1, need);
        assert FirstFit(hdr, blocks, from, at, need) == FirstFit(hdr, blocks, from, at + 1, need);
      } else {
        assert FirstFit(hdr, blocks, from, at, need).from == from;
      }
    } else {
      assert FirstFit(hdr, blocks, from, at, need) == NoFit;
    }
  }

  lemma FirstFitStarts(hdr: nat, blocks: seq<Block>, need: nat)
    requires need > 0
    ensures var fit := FirstFit(hdr, blocks, 0, 0, need);
            fit.Fit? ==> StartsRun(blocks, fit.from) && NoneBefore(hdr, blocks, fit.from, need)
  {
    assert blocks[0..0] == [];
    FirstFitIsFirst(hdr, blocks, 0, 0, need);
  }

  // ---------- what is left ----------

  /** Runs do not go beyond a block in use. */
  lemma {:induction false} LongestRunSplit(hdr: nat, a: seq<Block>, b: seq<Block>, current: nat)
    requires a != [] && !a[|a| - 1].free
    ensures LongestRun(hdr, a + b, current) == Max(LongestRun(hdr, a, current), LongestRun(hdr, b, 0))
    decreases |a|
  {
    assert (a + b)[1..] == a[1..] + b;
    if |a| == 1 {
      assert a[1..] + b == b;
    } else {
      LongestRunSplit(hdr, a[1..], b, if a[0].free then current + Size(hdr, a[0]) else 0);
    }
  }

  lemma {:induction false} LongestRunJoins(hdr: nat, a: seq<Block>, b: seq<Block>, current: nat)
    requires AllFree(a)
    ensures LongestRun(hdr, a + b, current) == LongestRun(hdr, b, current + Total(hdr, a))
    decreases |a|
  {
    if a == [] {
      assert a + b == b;
    } else {
      assert (a + b)[1..] == a[1..] + b;
      LongestRunJoins(hdr, a[1..], b, current + Size(hdr, a[0]));
    }
  }

  lemma {:induction false} LongestRunGrows(hdr: nat, blocks: seq<Block>, x: nat, y: nat)
    requires x <= y
    ensures LongestRun(hdr, blocks, x) <= LongestRun(hdr, blocks, y) <= LongestRun(hdr, blocks, x) + (y - x)
    decreases |blocks|
  {
    if blocks != [] && blocks[0].free { LongestRunGrows(hdr, blocks[1..], x + Size(hdr, blocks[0]), y + Size(hdr, blocks[0])); }
  }

  lemma RunsAround(hdr: nat, a: seq<Block>, b: seq<Block>)
    requires a != [] ==> !a[|a| - 1].free
    ensures LongestRun(hdr, a + b, 0) == Max(LongestRun(hdr, a, 0), LongestRun(hdr, b, 0))
  {
    if a == [] {
      assert a + b == b;
    } else {
      LongestRunSplit(hdr, a, b, 0);
    }
  }

  /** The longest run behind the block handed out, before and after. */
  lemma CommittedRuns(hdr: nat, addr: nat, r: seq<Block>, c: seq<Block>, need: nat)
    requires AllFree(r) && Total(hdr, r) >= need + hdr + 1
    ensures LongestRun(hdr, r + c, 0) == LongestRun(hdr, c, Total(hdr, r))
    ensures var run := Total(hdr, r);
            LongestRun(hdr, Committed(hdr, addr, run, need) + c, 0) ==
            if run >= need + 2 * hdr + 1 then LongestRun(hdr, c, run - need - hdr) else LongestRun(hdr, c, 0)
  {
    var run := Total(hdr, r);
    var mid := Committed(hdr, addr, run, need);
    LongestRunJoins(hdr, r, c, 0);
    CommittedExact(hdr, addr, run, need);
    LongestRunSplit(hdr, [mid[0]], mid[1..] + c, 0);
    assert [mid[0]] + (mid[1..] + c) == mid + c;
    LongestRunAtLeast(hdr, mid[1..] + c, 0);
    assert [mid[0]][1..] == [];
    if |mid| == 2 {
      LongestRunJoins(hdr, [mid[1]], c, 0);
      assert mid[1..] == [mid[1]] && [mid[1]][1..] == [];
    } else {
      assert mid[1..] + c == c;
    }
  }

  /** The longest run, before and after. */
  lemma AllocatedRuns(hdr: nat, blocks: seq<Block>, need: nat, a: seq<Block>, r: seq<Block>, c: seq<Block>)
    requires FirstFit(hdr, blocks, 0, 0, need + hdr + 1) == Fit(|a|, |a| + |r|) && blocks == a + r + c && StartsRun(blocks, |a|)
    ensures var run := Total(hdr, r);
            && run >= need + hdr + 1
            && LongestRun(hdr, blocks, 0) == Max(LongestRun(hdr, a, 0), LongestRun(hdr, c, run))
            && LongestRun(hdr, Allocated(hdr, blocks, need), 0) ==
               Max(LongestRun(hdr, a, 0), LongestRun(hdr, c, if run >= need + 2 * hdr + 1 then run - need - hdr else 0))
  {
    var run, addr := Total(hdr, r), blocks[|a|].addr;
    var mid := Committed(hdr, addr, run, need);
    AllocatedAt(hdr, blocks, need, |a|, |a| + |r|);
    assert blocks[..|a|] == a && blocks[|a|..|a| + |r|] == r && blocks[|a| + |r|..] == c;
    assert a + r + c == a + (r + c) && a + mid + c == a + (mid + c);
    RunsAround(hdr, a, r + c);
    RunsAround(hdr, a, mid + c);
    CommittedRuns(hdr, addr, r, c, need);
  }

  /** The largest chunk falls by the request and two headers at most. */
  lemma AllocatedLeaves(hdr: nat, blocks: seq<Block>, need: nat)
    requires FirstFit(hdr, blocks, 0, 0, need + hdr + 1).Fit?
    ensures LargestChunk(hdr, blocks) <= LargestChunk(hdr, Allocated(hdr, blocks, need)) + need + 2 * hdr
    ensures Apart(blocks) ==> LargestChunk(hdr, blocks) <= LargestChunk(hdr, Allocated(hdr, blocks, need)) + need + hdr
  {
    RunFalls(hdr, blocks, need);
  }

  lemma RunFalls(hdr: nat, blocks: seq<Block>, need: nat)
    requires FirstFit(hdr, blocks, 0, 0, need + hdr + 1).Fit?
    ensures var before, after := LongestRun(hdr, blocks, 0), LongestRun(hdr, Allocated(hdr, blocks, need), 0);
            before <= after + need + 2 * hdr && (Apart(blocks) ==> before <= Max(after + need + hdr, need + 2 * hdr))
  {
    var fit := FirstFit(hdr, blocks, 0, 0, need + hdr + 1);
    var a, r, c := blocks[..fit.from], blocks[fit.from..fit.to], blocks[fit.to..];
    assert blocks == a + r + c;
    if Apart(blocks) && c != [] {
      assert r[|r| - 1].free && !(blocks[fit.to - 1].free && blocks[fit.to - 1 + 1].free);
      assert blocks[fit.to - 1] == r[|r| - 1] && blocks[fit.to] == c[0];
    }
    FirstFitStarts(hdr, blocks, need + hdr + 1);
    RunFallsBy(hdr, blocks, need, a, r, c);
  }

  lemma RunFallsBy(hdr: nat, blocks: seq<Block>, need: nat, a: seq<Block>, r: seq<Block>, c: seq<Block>)
    requires FirstFit(hdr, blocks, 0, 0, need + hdr + 1) == Fit(|a|, |a| + |r|) && blocks == a + r + c && StartsRun(blocks, |a|)
    ensures var before, after := LongestRun(hdr, blocks, 0), LongestRun(hdr, Allocated(hdr, blocks, need), 0);
            before <= after + need + 2 * hdr && (c == [] || !c[0].free ==> before <= Max(after + need + hdr, need + 2 * hdr))
  {
    AllocatedRuns(hdr, blocks, need, a, r, c);
    var run := Total(hdr, r);
    LeftBehind(hdr, c, run, need);
    MaxFalls(LongestRun(hdr, a, 0), LongestRun(hdr, c, run), LongestRun(hdr, c, if run >= need + 2 * hdr + 1 then run - need - hdr else 0), need, hdr);
  }

  lemma MaxFalls(x: nat, y: nat, z: nat, need: nat, hdr: nat)
    ensures y <= z + need + 2 * hdr ==> Max(x, y) <= Max(x, z) + need + 2 * hdr
    ensures y <= Max(z + need + hdr, need + 2 * hdr) ==> Max(x, y) <= Max(Max(x, z) + need + hdr, need + 2 * hdr)
  {}

  lemma LeftBehind(hdr: nat, c: seq<Block>, run: nat, need: nat)
    requires run >= need + hdr + 1
    ensures var left := if run >= need + 2 * hdr + 1 then run - need - hdr else 0;
            && LongestRun(hdr, c, run) <= LongestRun(hdr, c, left) + need + 2 * hdr
            && (c == [] || !c[0].free ==> LongestRun(hdr, c, run) <= Max(LongestRun(hdr, c, left) + need + hdr, need + 2 * hdr))
  {
    LongestRunGrows(hdr, c, if run >= need + 2 * hdr + 1 then run - need - hdr else 0, run);
    if c != [] && !c[0].free {
      RunStops(hdr, c, run);
      RunStops(hdr, c, if run >= need + 2 * hdr + 1 then run - need - hdr else 0);
    }
  }

  lemma RunStops(hdr: nat, c: seq<Block>, x: nat)
    requires c != [] && !c[0].free
    ensures LongestRun(hdr, c, x) == Max(x, LongestRun(hdr, c, 0))
  {}

  /** What is not given to the block stays free. */
  lemma AllocatedFree(hdr: nat, blocks: seq<Block>, need: nat)
    requires FirstFit(hdr, blocks, 0, 0, need + hdr + 1).Fit?
    ensures FreeWords(blocks) <= FreeWords(Allocated(hdr, blocks, need)) + need + hdr
  {
    var fit := FirstFit(hdr, blocks, 0, 0, need + hdr + 1);
    var a, r, c := blocks[..fit.from], blocks[fit.from..fit.to], blocks[fit.to..];
    var mid := Committed(hdr, blocks[fit.from].addr, Total(hdr, r), need);
    AllocatedAt(hdr, blocks, need, fit.from, fit.to);
    assert blocks == a + r + c;
    FreeWordsConcat(a + r, c);
    FreeWordsConcat(a, r);
    FreeWordsConcat(a + mid, c);
    FreeWordsConcat(a, mid);
    FreeWordsBelow(hdr, r);
    CommittedFree(hdr, blocks[fit.from].addr, Total(hdr, r), need);
  }

  /** Where no two free blocks are neighbours none become so. */
  lemma AllocatedApart(hdr: nat, blocks: seq<Block>, need: nat)
    ensures Apart(blocks) ==> Apart(Allocated(hdr, blocks, need))
  {
    var fit := FirstFit(hdr, blocks, 0, 0, need + hdr + 1);
    if Apart(blocks) && fit.Fit? {
      var r := blocks[fit.from..fit.to];
      AllocatedAt(hdr, blocks, need, fit.from, fit.to);
      CommittedExact(hdr, blocks[fit.from].addr, Total(hdr, r), need);
      assert r[|r| - 1] == blocks[fit.to - 1];
      ApartSpliced(blocks, fit.from, fit.to, Committed(hdr, blocks[fit.from].addr, Total(hdr, r), need));
    }
  }

  lemma ApartSpliced(blocks: seq<Block>, from: nat, to: nat, mid: seq<Block>)
    requires Apart(blocks) && from < to <= |blocks| && blocks[to - 1].free && 1 <= |mid| <= 2 && !mid[0].free
    ensures Apart(blocks[..from] + mid + blocks[to..])
  {
    var s := blocks[..from] + mid + blocks[to..];
    forall i | 0 <= i < |s| - 1 ensures !(s[i].free && s[i + 1].free) {
      if i + 1 < from {
        assert s[i] == blocks[i] && s[i + 1] == blocks[i + 1];
      } else if i >= from + |mid| {
        var k := i - from - |mid| + to;
        assert s[i] == blocks[k] && s[i + 1] == blocks[k + 1];
      } else if i == from + 1 {
        assert s[i + 1] == blocks[to];
        assert !(blocks[to - 1].free && blocks[to - 1 + 1].free);
      }
    }
  }
}
