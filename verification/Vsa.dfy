/** The variable-size allocator in its pool of words (projects/vsa/src/vsa.c).

    Addresses are word indices into the aligned pool, whose word 0 is the vsa_t
    structure; a header stores its payload length in bytes, negated while the block
    is in use.  A header is one word, or two in a build with the magic number. */
module Vsa {
  import opened VsaBlocks
  import opened VsaSpace

  const WORD_SIZE := 8
  const VSA_MAGIC_NUMBER := 0xDEADBEEF

  function AlignUp(n: nat): nat { (n + (WORD_SIZE - 1)) / WORD_SIZE * WORD_SIZE }

  function AlignDown(n: nat): nat { n / WORD_SIZE * WORD_SIZE }

  function Abs(n: int): nat { if n < 0 then -n else n }

  /** The value of block_size in the header of `b`. */
  function Stored(b: Block): int { if b.free then b.words * WORD_SIZE else -(b.words * WORD_SIZE) }

  /** The headers found in the words `from..to` are those of `blocks`, one after the other. */
  predicate Tiles(hdr: nat, m: seq<int>, blocks: seq<Block>, from: nat, to: nat)
    decreases |blocks|
  {
    if blocks == [] then from == to <= |m|
    else
      && blocks[0].addr == from && blocks[0].words > 0 && from + Size(hdr, blocks[0]) <= to <= |m|
      && 1 <= hdr <= 2
      && m[from] == Stored(blocks[0])
      && (hdr == 2 ==> m[from + 1] == VSA_MAGIC_NUMBER)
      && Tiles(hdr, m, blocks[1..], from + Size(hdr, blocks[0]), to)
  }

  lemma {:induction false} TilesTotal(hdr: nat, m: seq<int>, blocks: seq<Block>, from: nat, to: nat)
    requires Tiles(hdr, m, blocks, from, to)
    ensures to == from + Total(hdr, blocks) && AllNonempty(blocks)
    decreases |blocks|
  {
    if blocks != [] { TilesTotal(hdr, m, blocks[1..], from + Size(hdr, blocks[0]), to); }
  }

  lemma {:induction false} TilesFrame(hdr: nat, m: seq<int>, m': seq<int>, blocks: seq<Block>, from: nat, to: nat)
    requires Tiles(hdr, m, blocks, from, to) && |m'| == |m|
    requires forall i :: from <= i < to ==> m'[i] == m[i]
    ensures Tiles(hdr, m', blocks, from, to)
    decreases |blocks|
  {
    if blocks != [] { TilesFrame(hdr, m, m', blocks[1..], from + Size(hdr, blocks[0]), to); }
  }

  lemma {:induction false} TilesSplit(hdr: nat, m: seq<int>, a: seq<Block>, b: seq<Block>, from: nat, to: nat)
    requires Tiles(hdr, m, a + b, from, to)
    ensures from + Total(hdr, a) <= to
    ensures Tiles(hdr, m, a, from, from + Total(hdr, a)) && Tiles(hdr, m, b, from + Total(hdr, a), to)
    decreases |a|
  {
    TilesTotal(hdr, m, a + b, from, to);
    TotalConcat(hdr, a, b);
    if a == [] {
      assert a + b == b;
    } else {
      assert (a + b)[1..] == a[1..] + b;
      TilesSplit(hdr, m, a[1..], b, from + Size(hdr, a[0]), to);
    }
  }

  lemma {:induction false} TilesJoin(hdr: nat, m: seq<int>, a: seq<Block>, b: seq<Block>, from: nat, mid: nat, to: nat)
    requires Tiles(hdr, m, a, from, mid) && Tiles(hdr, m, b, mid, to)
    ensures Tiles(hdr, m, a + b, from, to)
    decreases |a|
  {
    TilesTotal(hdr, m, a, from, mid);
    TilesTotal(hdr, m, b, mid, to);
    if a == [] {
      assert a + b == b;
    } else {
      assert (a + b)[1..] == a[1..] + b;
      TilesJoin(hdr, m, a[1..], b, from + Size(hdr, a[0]), mid, to);
    }
  }

  /** The memory alone determines the block list. */
  lemma {:induction false} TilesUnique(hdr: nat, m: seq<int>, a: seq<Block>, b: seq<Block>, from: nat, to: nat)
    requires Tiles(hdr, m, a, from, to) && Tiles(hdr, m, b, from, to)
    ensures a == b
    decreases |a|
  {
    TilesTotal(hdr, m, a, from, to);
    TilesTotal(hdr, m, b, from, to);
    if a != [] && b != [] {
      TilesUnique(hdr, m, a[1..], b[1..], from + Size(hdr, a[0]), to);
      assert a == [a[0]] + a[1..] && b == [b[0]] + b[1..];
    }
  }

  /** Where block `k` lies. */
  lemma TilesAt(hdr: nat, m: seq<int>, blocks: seq<Block>, from: nat, to: nat, k: nat)
    requires Tiles(hdr, m, blocks, from, to) && k < |blocks|
    ensures blocks[k].addr == from + Total(hdr, blocks[..k])
    ensures blocks[k].addr + Size(hdr, blocks[k]) == from + Total(hdr, blocks[..k + 1]) <= to
    ensures Tiles(hdr, m, blocks[k..], blocks[k].addr, to) && m[blocks[k].addr] == Stored(blocks[k])
    ensures Tiles(hdr, m, blocks[..k], from, blocks[k].addr)
  {
    assert blocks == blocks[..k] + blocks[k..];
    TilesSplit(hdr, m, blocks[..k], blocks[k..], from, to);
    assert blocks[..k + 1] == blocks[..k] + [blocks[k]];
    TotalConcat(hdr, blocks[..k], [blocks[k]]);
  }

  /** Blocks lie in the pool and do not overlap. */
  lemma TilesDisjoint(hdr: nat, m: seq<int>, blocks: seq<Block>, from: nat, to: nat, i: nat, j: nat)
    requires Tiles(hdr, m, blocks, from, to) && i < j < |blocks|
    ensures from <= blocks[i].addr && blocks[i].addr + Size(hdr, blocks[i]) <= blocks[j].addr
    ensures blocks[j].addr + Size(hdr, blocks[j]) <= to
  {
    TilesAt(hdr, m, blocks, from, to, i);
    TilesAt(hdr, m, blocks, from, to, j);
    assert blocks[..j] == blocks[..i + 1] + blocks[i + 1..j];
    TotalConcat(hdr, blocks[..i + 1], blocks[i + 1..j]);
  }

  /** A section of the list is a section of the pool. */
  lemma TilesSection(hdr: nat, m: seq<int>, blocks: seq<Block>, from: nat, to: nat, i: nat, j: nat)
    requires Tiles(hdr, m, blocks, from, to) && i < j <= |blocks|
    ensures var start, end := blocks[i].addr, blocks[i].addr + Total(hdr, blocks[i..j]);
            && from <= start < end <= to
            && Tiles(hdr, m, blocks[..i], from, start)
            && Tiles(hdr, m, blocks[i..j], start, end)
            && Tiles(hdr, m, blocks[j..], end, to)
  {
    TilesAt(hdr, m, blocks, from, to, i);
    assert blocks[i..] == blocks[i..j] + blocks[j..];
    TilesSplit(hdr, m, blocks[i..j], blocks[j..], blocks[i].addr, to);
    TilesTotal(hdr, m, blocks[..i], from, blocks[i].addr);
  }

  /** Rewriting one section leaves the rest of the tiling in place. */
  lemma TilesReplace(hdr: nat, m: seq<int>, m': seq<int>, blocks: seq<Block>, i: nat, j: nat, mid: seq<Block>)
    requires Tiles(hdr, m, blocks, 1, |m|) && i < j <= |blocks| && |m'| == |m|
    requires var start, end := blocks[i].addr, blocks[i].addr + Total(hdr, blocks[i..j]);
             && Tiles(hdr, m', mid, start, end)
             && forall k :: 0 <= k < |m| && !(start <= k < end) ==> m'[k] == m[k]
    ensures Tiles(hdr, m', blocks[..i] + mid + blocks[j..], 1, |m|)
  {
    var start, end := blocks[i].addr, blocks[i].addr + Total(hdr, blocks[i..j]);
    var before, behind := blocks[..i], blocks[j..];
    assert 1 <= start <= end && Tiles(hdr, m', before, 1, start) && Tiles(hdr, m', behind, end, |m|) by {
      TilesAround(hdr, m, m', blocks, i, j);
    }
    TilesJoinThree(hdr, m', before, mid, behind, start, end);
  }

  lemma {:induction false} TilesJoinThree(hdr: nat, m: seq<int>, a: seq<Block>, b: seq<Block>, c: seq<Block>, start: nat, end: nat)
    requires 1 <= start <= end && Tiles(hdr, m, a, 1, start) && Tiles(hdr, m, b, start, end) && Tiles(hdr, m, c, end, |m|)
    ensures Tiles(hdr, m, a + b + c, 1, |m|)
  {
    TilesJoin(hdr, m, a, b, 1, start, end);
    TilesJoin(hdr, m, a + b, c, 1, end, |m|);
  }

  lemma {:induction false} TilesAround(hdr: nat, m: seq<int>, m': seq<int>, blocks: seq<Block>, i: nat, j: nat)
    requires Tiles(hdr, m, blocks, 1, |m|) && i < j <= |blocks| && |m'| == |m|
    requires var start, end := blocks[i].addr, blocks[i].addr + Total(hdr, blocks[i..j]);
             forall k :: 0 <= k < |m| && !(start <= k < end) ==> m'[k] == m[k]
    ensures var start, end := blocks[i].addr, blocks[i].addr + Total(hdr, blocks[i..j]);
            1 <= start <= end && Tiles(hdr, m', blocks[..i], 1, start) && Tiles(hdr, m', blocks[j..], end, |m|)
  {
    var start, end := blocks[i].addr, blocks[i].addr + Total(hdr, blocks[i..j]);
    TilesSection(hdr, m, blocks, 1, |m|, i, j);
    TilesFrame(hdr, m, m', blocks[..i], 1, start);
    TilesFrame(hdr, m, m', blocks[j..], end, |m|);
  }

  predicate HeadersOf(hdr: nat, m: seq<int>, blocks: seq<Block>) {
    forall k :: 0 <= k < |blocks| ==>
      blocks[k].addr + hdr <= |m| && hdr > 0 && m[blocks[k].addr] == Stored(blocks[k]) && (hdr == 2 ==> m[blocks[k].addr + 1] == VSA_MAGIC_NUMBER)
  }

  lemma CommittedTiles(hdr: nat, m: seq<int>, addr: nat, run: nat, need: nat)
    requires 1 <= hdr <= 2 && need > 0 && run >= need + hdr + 1 && addr + run <= |m|
    requires HeadersOf(hdr, m, Committed(hdr, addr, run, need))
    ensures Tiles(hdr, m, Committed(hdr, addr, run, need), addr, addr + run)
  {
    var mid := Committed(hdr, addr, run, need);
    if |mid| == 2 {
      assert mid[1..] == [mid[1]] && mid[1..][1..] == [];
      assert Tiles(hdr, m, mid[1..], mid[1].addr, addr + run);
    }
  }

  lemma {:induction false} LiveIndex(blocks: seq<Block>, b: Block) returns (k: nat)
    requires b in Live(blocks)
    ensures k < |blocks| && blocks[k] == b && !b.free
    decreases |blocks|
  {
    if !blocks[0].free && blocks[0] == b {
      k := 0;
    } else {
      k := LiveIndex(blocks[1..], b);
      k := k + 1;
    }
  }

  lemma LiveInside(hdr: nat, m: seq<int>, blocks: seq<Block>)
    requires Tiles(hdr, m, blocks, 1, |m|)
    ensures forall b :: b in Live(blocks) ==> b.addr + Size(hdr, b) <= |m|
  {
    forall b | b in Live(blocks) ensures b.addr + Size(hdr, b) <= |m| {
      var k := LiveIndex(blocks, b);
      TilesAt(hdr, m, blocks, 1, |m|, k);
    }
  }

  /** No block in use touches a stretch of free blocks. */
  lemma LiveApart(hdr: nat, m: seq<int>, blocks: seq<Block>, from: nat, to: nat)
    requires Tiles(hdr, m, blocks, 1, |m|) && from < to <= |blocks| && AllFree(blocks[from..to])
    ensures forall b :: b in Live(blocks) ==>
              b.addr + Size(hdr, b) <= blocks[from].addr || blocks[from].addr + Total(hdr, blocks[from..to]) <= b.addr
  {
    forall b | b in Live(blocks)
      ensures b.addr + Size(hdr, b) <= blocks[from].addr || blocks[from].addr + Total(hdr, blocks[from..to]) <= b.addr
    {
      var k := LiveIndex(blocks, b);
      assert forall i :: from <= i < to ==> blocks[i] == blocks[from..to][i - from];
      if k < from {
        TilesDisjoint(hdr, m, blocks, 1, |m|, k, from);
      } else {
        TilesSection(hdr, m, blocks, 1, |m|, from, to);
        var rest := blocks[to..];
        TilesAt(hdr, m, rest, blocks[from].addr + Total(hdr, blocks[from..to]), |m|, k - to);
      }
    }
  }

  /** What a walk finds at the next header. */
  lemma ScanStep(hdr: nat, m: seq<int>, blocks: seq<Block>, from: nat, at: nat, cur: nat)
    requires from <= at <= |blocks| && AllFree(blocks[from..at])
    requires cur < |m| && Tiles(hdr, m, blocks[at..], cur, |m|)
    ensures at < |blocks| && blocks[at].addr == cur && blocks[at].words > 0 && m[cur] == Stored(blocks[at])
    ensures cur + Size(hdr, blocks[at]) <= |m| && Tiles(hdr, m, blocks[at + 1..], cur + Size(hdr, blocks[at]), |m|)
    ensures hdr + Abs(m[cur]) / WORD_SIZE == Size(hdr, blocks[at])
    ensures Total(hdr, blocks[from..at + 1]) == Total(hdr, blocks[from..at]) + Size(hdr, blocks[at])
    ensures blocks[at].free ==> AllFree(blocks[from..at + 1])
  {
    TilesTotal(hdr, m, blocks[at..], cur, |m|);
    assert blocks[at..][1..] == blocks[at + 1..] && blocks[at] == blocks[at..][0];
    assert blocks[from..at + 1] == blocks[from..at] + [blocks[at]];
    TotalConcat(hdr, blocks[from..at], [blocks[at]]);
  }

  /** The walk stands before block `at`, with the free blocks from `from` on behind it and no fit so far. */
  ghost predicate Scanning(hdr: nat, m: seq<int>, blocks: seq<Block>, from: nat, at: nat, cur: nat, need: nat) {
    && from <= at <= |blocks| && AllFree(blocks[from..at]) && cur <= |m| && Tiles(hdr, m, blocks[at..], cur, |m|)
    && Total(hdr, blocks[from..at]) < need
    && FirstFit(hdr, blocks, 0, 0, need) == FirstFit(hdr, blocks, from, at, need)
  }

  lemma StartScan(hdr: nat, m: seq<int>, blocks: seq<Block>, need: nat)
    requires Tiles(hdr, m, blocks, 1, |m|) && |m| > 1 && need > 0
    ensures Scanning(hdr, m, blocks, 0, 0, 1, need) && Total(hdr, blocks[0..0]) == 0
  {
    assert blocks[0..] == blocks && blocks[0..0] == [];
  }

  lemma ScanOver(hdr: nat, m: seq<int>, blocks: seq<Block>, from: nat, at: nat, cur: nat, need: nat)
    requires Scanning(hdr, m, blocks, from, at, cur, need) && cur >= |m|
    ensures FirstFit(hdr, blocks, 0, 0, need) == NoFit
  {
    TilesTotal(hdr, m, blocks[at..], cur, |m|);
    assert blocks[at..] == [];
  }

  /** The header after the one at `cur`. */
  function After(hdr: nat, m: seq<int>, cur: nat): nat
    requires cur < |m|
  {
    cur + hdr + Abs(m[cur]) / WORD_SIZE
  }

  /** The two counters of the search belong to the free blocks from `from` to `at`. */
  ghost predicate Counting(hdr: nat, m: seq<int>, blocks: seq<Block>, from: nat, at: nat, cur: nat, need: nat, runStart: nat, runBytes: nat) {
    && Scanning(hdr, m, blocks, from, at, cur, need) && runBytes == Total(hdr, blocks[from..at]) * WORD_SIZE
    && (from == at <==> runBytes == 0) && (from < at ==> runStart == blocks[from].addr > 0)
  }

  lemma ScanSkip(hdr: nat, m: seq<int>, blocks: seq<Block>, from: nat, at: nat, cur: nat, need: nat)
    requires Scanning(hdr, m, blocks, from, at, cur, need) && cur < |m| && need > 0 && m[cur] <= 0
    ensures Counting(hdr, m, blocks, at + 1, at + 1, After(hdr, m, cur), need, 0, 0) && cur < After(hdr, m, cur)
  {
    ScanStep(hdr, m, blocks, from, at, cur);
    FirstFitStep(hdr, blocks, from, at, need);
    assert blocks[at + 1..at + 1] == [];
  }

  lemma ScanTake(hdr: nat, m: seq<int>, blocks: seq<Block>, from: nat, at: nat, cur: nat, need: nat, runStart: nat, runBytes: nat)
    requires Counting(hdr, m, blocks, from, at, cur, need, runStart, runBytes) && 0 < cur < |m| && need > 0 && m[cur] > 0
    ensures var start, bytes := if runBytes == 0 then cur else runStart, runBytes + (hdr * WORD_SIZE + m[cur]);
            if bytes >= need * WORD_SIZE then Found(hdr, blocks, from, at + 1, need, start, bytes)
            else Counting(hdr, m, blocks, from, at + 1, After(hdr, m, cur), need, start, bytes) && cur < After(hdr, m, cur)
  {
    ScanStep(hdr, m, blocks, from, at, cur);
    FirstFitStep(hdr, blocks, from, at, need);
  }

  /** The search ends with this stretch. */
  ghost predicate Found(hdr: nat, blocks: seq<Block>, from: nat, to: nat, need: nat, start: nat, bytes: nat) {
    && FirstFit(hdr, blocks, 0, 0, need) == Fit(from, to)
    && from < to <= |blocks| && start == blocks[from].addr > 0 && bytes == Total(hdr, blocks[from..to]) * WORD_SIZE
  }

  lemma TilesOne(hdr: nat, m: seq<int>, b: Block)
    requires 1 <= hdr <= 2 && b.words > 0 && b.addr + Size(hdr, b) <= |m|
    requires m[b.addr] == Stored(b) && (hdr == 2 ==> m[b.addr + 1] == VSA_MAGIC_NUMBER)
    ensures Tiles(hdr, m, [b], b.addr, b.addr + Size(hdr, b))
  {
    assert [b][1..] == [];
  }

  lemma FreedTiles(hdr: nat, m: seq<int>, m': seq<int>, blocks: seq<Block>, k: nat)
    requires 1 <= hdr <= 2 && Tiles(hdr, m, blocks, 1, |m|) && k < |blocks| && !blocks[k].free && |m'| == |m|
    requires blocks[k].addr + hdr <= |m| && m'[blocks[k].addr] == 0 - Stored(blocks[k])
    requires hdr == 2 ==> m'[blocks[k].addr + 1] == VSA_MAGIC_NUMBER
    requires forall i :: 0 <= i < |m| && !(blocks[k].addr <= i < blocks[k].addr + hdr) ==> m'[i] == m[i]
    ensures Tiles(hdr, m', blocks[k := blocks[k].(free := true)], 1, |m|)
  {
    var freed := [blocks[k].(free := true)];
    TilesSection(hdr, m, blocks, 1, |m|, k, k + 1);
    assert blocks[k..k + 1] == [blocks[k]];
    TilesOne(hdr, m', freed[0]);
    TilesReplace(hdr, m, m', blocks, k, k + 1, freed);
    UpdateSplices(blocks, k, freed[0]);
  }

  /** Every stretch of free blocks that begins further down is too short for the request. */
  ghost predicate TookFirst(hdr: nat, blocks: seq<Block>, payload: nat, request: nat) {
    forall i, j :: 0 <= i < j <= |blocks| && AllFree(blocks[i..j]) && blocks[i].addr + hdr < payload
      ==> Total(hdr, blocks[i..j]) * WORD_SIZE < request + (hdr + 1) * WORD_SIZE
  }

  /** The free space falls by the request and one header at most, the largest chunk by no more than
      another header; and by none where no two free blocks were neighbours, as after coalescing. */
  predicate Economical(hdr: nat, before: seq<Block>, after: seq<Block>, request: nat) {
    && FreeWords(before) * WORD_SIZE <= FreeWords(after) * WORD_SIZE + request + hdr * WORD_SIZE
    && LargestChunk(hdr, before) * WORD_SIZE <= LargestChunk(hdr, after) * WORD_SIZE + request + 2 * hdr * WORD_SIZE
    && (Apart(before) ==>
          && Apart(after)
          && LargestChunk(hdr, before) * WORD_SIZE <= LargestChunk(hdr, after) * WORD_SIZE + request + hdr * WORD_SIZE)
  }

  lemma AllocatedIffBytes(hdr: nat, blocks: seq<Block>, need: nat)
    ensures FirstFit(hdr, blocks, 0, 0, need + hdr + 1).Fit? <==> LargestChunk(hdr, blocks) * WORD_SIZE >= need * WORD_SIZE + WORD_SIZE
  {
    AllocatedIff(hdr, blocks, need);
  }

  lemma ServedWell(hdr: nat, m: seq<int>, blocks: seq<Block>, need: nat, payload: nat)
    requires Tiles(hdr, m, blocks, 1, |m|) && FirstFit(hdr, blocks, 0, 0, need + hdr + 1).Fit?
    requires payload == blocks[FirstFit(hdr, blocks, 0, 0, need + hdr + 1).from].addr + hdr
    ensures TookFirst(hdr, blocks, payload, need * WORD_SIZE) && Economical(hdr, blocks, Allocated(hdr, blocks, need), need * WORD_SIZE)
  {
    AllocatedFree(hdr, blocks, need);
    AllocatedLeaves(hdr, blocks, need);
    AllocatedApart(hdr, blocks, need);
    FitIsFirst(hdr, m, blocks, need);
  }

  /** Every stretch of free blocks that lies further down is too short. */
  lemma FitIsFirst(hdr: nat, m: seq<int>, blocks: seq<Block>, need: nat)
    requires Tiles(hdr, m, blocks, 1, |m|)
    ensures var fit := FirstFit(hdr, blocks, 0, 0, need + hdr + 1);
            fit.Fit? ==> forall i, j :: 0 <= i < j <= |blocks| && AllFree(blocks[i..j]) && blocks[i].addr < blocks[fit.from].addr
                           ==> Total(hdr, blocks[i..j]) < need + hdr + 1
  {
    var fit := FirstFit(hdr, blocks, 0, 0, need + hdr + 1);
    FirstFitStarts(hdr, blocks, need + hdr + 1);
    if fit.Fit? {
      forall i, j | 0 <= i < j <= |blocks| && AllFree(blocks[i..j]) && blocks[i].addr < blocks[fit.from].addr
        ensures Total(hdr, blocks[i..j]) < need + hdr + 1
      {
        if fit.from < i { TilesDisjoint(hdr, m, blocks, 1, |m|, fit.from, i); }
        StretchBefore(hdr, blocks, i, j, fit.from, need + hdr + 1);
      }
    }
  }

  /** A client that writes any payload word of its block leaves the headers and every other block alone. */
  lemma PayloadWritten(hdr: nat, m: seq<int>, blocks: seq<Block>, k: nat, p: nat, v: int)
    requires Tiles(hdr, m, blocks, 1, |m|) && k < |blocks| && blocks[k].addr + hdr <= p < blocks[k].addr + Size(hdr, blocks[k])
    ensures p < |m| && Tiles(hdr, m[p := v], blocks, 1, |m|)
    ensures forall j :: 0 <= j < |blocks| && j != k ==>
              var b := blocks[j]; b.addr + Size(hdr, b) <= |m| && m[p := v][b.addr..b.addr + Size(hdr, b)] == m[b.addr..b.addr + Size(hdr, b)]
  {
    TilesAt(hdr, m, blocks, 1, |m|, k);
    PayloadInTiles(hdr, m, blocks, 1, k, p, v);
    forall j | 0 <= j < |blocks| && j != k
      ensures var b := blocks[j]; b.addr + Size(hdr, b) <= |m| && (b.addr + Size(hdr, b) <= p || p < b.addr)
    {
      if j < k { TilesDisjoint(hdr, m, blocks, 1, |m|, j, k); } else { TilesDisjoint(hdr, m, blocks, 1, |m|, k, j); }
    }
  }

  lemma {:induction false} PayloadInTiles(hdr: nat, m: seq<int>, blocks: seq<Block>, from: nat, k: nat, p: nat, v: int)
    requires Tiles(hdr, m, blocks, from, |m|) && k < |blocks| && p < |m| && blocks[k].addr + hdr <= p < blocks[k].addr + Size(hdr, blocks[k])
    ensures Tiles(hdr, m[p := v], blocks, from, |m|)
    decreases |blocks|
  {
    var next := from + Size(hdr, blocks[0]);
    if k == 0 {
      TilesFrame(hdr, m, m[p := v], blocks[1..], next, |m|);
    } else {
      TilesDisjoint(hdr, m, blocks, from, |m|, 0, k);
      PayloadInTiles(hdr, m, blocks[1..], next, k - 1, p, v);
    }
  }

  /** The blocks in use have kept every word, header and payload. */
  ghost predicate SameInUse(hdr: nat, blocks: seq<Block>, m: seq<int>, m': seq<int>) {
    && |m| == |m'|
    && forall b :: b in Live(blocks) ==>
         b.addr + Size(hdr, b) <= |m| && m'[b.addr..b.addr + Size(hdr, b)] == m[b.addr..b.addr + Size(hdr, b)]
  }

  lemma SameInUseTrans(hdr: nat, blocks: seq<Block>, blocks': seq<Block>, m: seq<int>, m': seq<int>, m'': seq<int>)
    requires SameInUse(hdr, blocks, m, m') && SameInUse(hdr, blocks', m', m'') && Live(blocks') == Live(blocks)
    ensures SameInUse(hdr, blocks, m, m'')
  {
  }

  /** Writing inside a stretch of free blocks touches no block in use. */
  lemma SameInUseOutside(hdr: nat, blocks: seq<Block>, m: seq<int>, m': seq<int>, from: nat, to: nat)
    requires Tiles(hdr, m, blocks, 1, |m|) && from < to <= |blocks| && AllFree(blocks[from..to]) && |m'| == |m|
    requires forall i :: 0 <= i < |m| && !(blocks[from].addr <= i < blocks[from].addr + Total(hdr, blocks[from..to])) ==> m'[i] == m[i]
    ensures SameInUse(hdr, blocks, m, m')
  {
    LiveApart(hdr, m, blocks, from, to);
    LiveInside(hdr, m, blocks);
  }

  function Joined(hdr: nat, blocks: seq<Block>, k: nat): seq<Block>
    requires k + 1 < |blocks|
  {
    blocks[..k] + [Join(hdr, blocks[k], blocks[k + 1])] + blocks[k + 2..]
  }

  lemma JoinedLive(hdr: nat, blocks: seq<Block>, k: nat)
    requires k + 1 < |blocks| && blocks[k].free && blocks[k + 1].free
    ensures Live(Joined(hdr, blocks, k)) == Live(blocks)
    ensures Total(hdr, blocks[k..k + 2]) == Size(hdr, Join(hdr, blocks[k], blocks[k + 1]))
  {
    var join, pair := Join(hdr, blocks[k], blocks[k + 1]), blocks[k..k + 2];
    assert pair[1..] == [blocks[k + 1]] && pair[1..][1..] == [];
    assert Total(hdr, pair[1..]) == Size(hdr, blocks[k + 1]) + Total(hdr, pair[1..][1..]);
    assert blocks == blocks[..k] + pair + blocks[k + 2..];
    Spliced(hdr, blocks[..k], pair, blocks[k + 2..]);
    Spliced(hdr, blocks[..k], [join], blocks[k + 2..]);
    LiveOfFree(pair);
    LiveOfFree([join]);
  }

  /** One step of coalescing: the header of block `k` swallows the free block after it. */
  lemma JoinRetiles(hdr: nat, m: seq<int>, m': seq<int>, blocks: seq<Block>, k: nat)
    requires 1 <= hdr <= 2 && Tiles(hdr, m, blocks, 1, |m|) && k + 1 < |blocks| && blocks[k].free && blocks[k + 1].free
    requires blocks[k].addr < |m| && m' == m[blocks[k].addr := Stored(Join(hdr, blocks[k], blocks[k + 1]))]
    ensures Tiles(hdr, m', Joined(hdr, blocks, k), 1, |m|)
  {
    var join := Join(hdr, blocks[k], blocks[k + 1]);
    JoinedLive(hdr, blocks, k);
    TilesSection(hdr, m, blocks, 1, |m|, k, k + 2);
    TilesOne(hdr, m', join);
    TilesReplace(hdr, m, m', blocks, k, k + 2, [join]);
  }

  lemma JoinTiles(hdr: nat, m: seq<int>, m': seq<int>, blocks: seq<Block>, k: nat)
    requires 1 <= hdr <= 2 && Tiles(hdr, m, blocks, 1, |m|) && k + 1 < |blocks| && blocks[k].free && blocks[k + 1].free
    requires blocks[k].addr < |m| && m' == m[blocks[k].addr := Stored(Join(hdr, blocks[k], blocks[k + 1]))]
    ensures Tiles(hdr, m', Joined(hdr, blocks, k), 1, |m|) && SameInUse(hdr, blocks, m, m')
  {
    JoinRetiles(hdr, m, m', blocks, k);
    TilesSection(hdr, m, blocks, 1, |m|, k, k + 2);
    SameInUseOutside(hdr, blocks, m, m', k, k + 2);
  }

  /** Where the inner loop of Defrag stands: block `k` has swallowed some of its free successors. */
  ghost predicate Coalescing(hdr: nat, m0: seq<int>, blocks0: seq<Block>, m: seq<int>, blocks: seq<Block>, k: nat) {
    && Tiles(hdr, m, blocks, 1, |m|)
    && Live(blocks) == Live(blocks0) && SameInUse(hdr, blocks0, m0, m)
    && k < |blocks| && k < |blocks0| && blocks[..k] == blocks0[..k]
    && blocks[k].addr == blocks0[k].addr && blocks[k].free
    && Merged(hdr, blocks[k..]) == Merged(hdr, blocks0[k..])
  }

  lemma CoalescingStart(hdr: nat, m: seq<int>, blocks: seq<Block>, k: nat)
    requires Tiles(hdr, m, blocks, 1, |m|) && k < |blocks| && blocks[k].free
    ensures Coalescing(hdr, m, blocks, m, blocks, k)
  {
    LiveInside(hdr, m, blocks);
  }

  lemma CoalescingStep(hdr: nat, m0: seq<int>, blocks0: seq<Block>, m: seq<int>, blocks: seq<Block>, m': seq<int>, k: nat)
    requires 1 <= hdr <= 2 && Coalescing(hdr, m0, blocks0, m, blocks, k) && k + 1 < |blocks| && blocks[k + 1].free
    requires blocks[k].addr < |m| && m' == m[blocks[k].addr := Stored(Join(hdr, blocks[k], blocks[k + 1]))]
    ensures Coalescing(hdr, m0, blocks0, m', Joined(hdr, blocks, k), k)
  {
    JoinTiles(hdr, m, m', blocks, k);
    JoinedLive(hdr, blocks, k);
    MergedJoin(hdr, blocks, k);
    SameInUseTrans(hdr, blocks0, blocks, m0, m, m');
  }

  /** The header reached after walking over `k` blocks. */
  lemma HeaderAt(hdr: nat, m: seq<int>, blocks: seq<Block>, k: nat)
    requires Tiles(hdr, m, blocks, 1, |m|) && k <= |blocks| && 1 + Total(hdr, blocks[..k]) < |m|
    ensures k < |blocks| && blocks[k].addr == 1 + Total(hdr, blocks[..k]) && blocks[k].words > 0
    ensures m[blocks[k].addr] == Stored(blocks[k])
    ensures 1 + Total(hdr, blocks[..k + 1]) == blocks[k].addr + Size(hdr, blocks[k]) <= |m|
  {
    TilesTotal(hdr, m, blocks, 1, |m|);
    assert blocks[..|blocks|] == blocks;
    TilesAt(hdr, m, blocks, 1, |m|, k);
  }

  /** A walk that has reached end_pool has seen every block. */
  lemma WalkedAll(hdr: nat, m: seq<int>, blocks: seq<Block>, k: nat)
    requires Tiles(hdr, m, blocks, 1, |m|) && k <= |blocks| && 1 + Total(hdr, blocks[..k]) >= |m|
    ensures k == |blocks| && blocks[..k] == blocks && blocks[k..] == []
  {
    if k < |blocks| {
      TilesAt(hdr, m, blocks, 1, |m|, k);
    }
  }

  lemma HeaderAfter(hdr: nat, m: seq<int>, blocks: seq<Block>, k: nat)
    requires Tiles(hdr, m, blocks, 1, |m|) && k < |blocks|
    ensures var next := blocks[k].addr + Size(hdr, blocks[k]);
            next <= |m| && blocks[k].words > 0 && m[blocks[k].addr] == Stored(blocks[k]) &&
            if next == |m| then k + 1 == |blocks| else k + 1 < |blocks| && m[next] == Stored(blocks[k + 1]) && blocks[k + 1].words > 0
  {
    TilesAt(hdr, m, blocks, 1, |m|, k);
    assert blocks[k..][1..] == blocks[k + 1..];
    if k + 1 < |blocks| { assert blocks[k + 1..][0] == blocks[k + 1]; }
  }

  lemma MergedStep(hdr: nat, blocks: seq<Block>, k: nat)
    requires k < |blocks| && (blocks[k].free && k + 1 < |blocks| ==> !blocks[k + 1].free)
    ensures blocks[..k] + Merged(hdr, blocks[k..]) == blocks[..k + 1] + Merged(hdr, blocks[k + 1..])
  {
    assert blocks[k..][1..] == blocks[k + 1..];
    if k + 1 < |blocks| { assert blocks[k..][1] == blocks[k + 1]; }
    assert Merged(hdr, blocks[k..]) == [blocks[k]] + Merged(hdr, blocks[k + 1..]);
    assert blocks[..k + 1] == blocks[..k] + [blocks[k]];
  }

  /** The outer loop of Defrag: the blocks before `k` are as the merging leaves them. */
  ghost predicate Walking(hdr: nat, m0: seq<int>, blocks0: seq<Block>, m: seq<int>, blocks: seq<Block>, k: nat, curr: nat) {
    && Tiles(hdr, m, blocks, 1, |m|) && Live(blocks) == Live(blocks0) && SameInUse(hdr, blocks0, m0, m)
    && k <= |blocks| && curr == 1 + Total(hdr, blocks[..k])
    && Merged(hdr, blocks0) == blocks[..k] + Merged(hdr, blocks[k..])
  }

  lemma WalkStart(hdr: nat, m: seq<int>, blocks: seq<Block>)
    requires Tiles(hdr, m, blocks, 1, |m|)
    ensures Walking(hdr, m, blocks, m, blocks, 0, 1)
  {
    LiveInside(hdr, m, blocks);
    assert blocks[0..] == blocks;
  }

  lemma WalkCoalesced(hdr: nat, m0: seq<int>, blocks0: seq<Block>, m: seq<int>, blocks: seq<Block>, m': seq<int>, blocks': seq<Block>, k: nat, curr: nat)
    requires Walking(hdr, m0, blocks0, m, blocks, k, curr) && Coalescing(hdr, m, blocks, m', blocks', k)
    ensures Walking(hdr, m0, blocks0, m', blocks', k, curr)
  {
    SameInUseTrans(hdr, blocks0, blocks, m0, m, m');
  }

  lemma WalkOn(hdr: nat, m0: seq<int>, blocks0: seq<Block>, m: seq<int>, blocks: seq<Block>, k: nat, curr: nat)
    requires Walking(hdr, m0, blocks0, m, blocks, k, curr) && curr < |m| && (k + 1 < |blocks| && blocks[k].free ==> !blocks[k + 1].free)
    ensures curr < After(hdr, m, curr) <= |m| && Walking(hdr, m0, blocks0, m, blocks, k + 1, After(hdr, m, curr))
  {
    HeaderAt(hdr, m, blocks, k);
    MergedStep(hdr, blocks, k);
  }

  lemma MergedJoin(hdr: nat, blocks: seq<Block>, k: nat)
    requires k + 1 < |blocks| && blocks[k].free && blocks[k + 1].free
    ensures Joined(hdr, blocks, k)[..k] == blocks[..k] && Merged(hdr, Joined(hdr, blocks, k)[k..]) == Merged(hdr, blocks[k..])
  {
    var joined := Joined(hdr, blocks, k);
    assert joined[k..] == [Join(hdr, blocks[k], blocks[k + 1])] + blocks[k..][2..];
  }

  lemma AlignedNeed(n: nat) returns (need: nat)
    ensures AlignUp(n) == need * WORD_SIZE && need * WORD_SIZE >= n && (need > 0 <==> n > 0)
  {
    need := (n + (WORD_SIZE - 1)) / WORD_SIZE;
  }

  class Vsa {
    const mem: array<int>
    const hdr: nat
    ghost var blocks: seq<Block>

    /** The headers tile the pool exactly up to end_pool. */
    ghost predicate Valid()
      reads this, mem
    {
      1 <= hdr <= 2 && mem.Length > 1 && Tiles(hdr, mem[..], blocks, 1, mem.Length)
    }

    constructor (words: nat, hdr: nat)
      requires 1 <= hdr <= 2 && words >= 1 + hdr + 1
      ensures Valid() && fresh(mem) && mem.Length == words && this.hdr == hdr
      ensures blocks == [Block(1, words - 1 - hdr, true)]
    {
      var m := new int[words];
      m[1] := (words - 1 - hdr) * WORD_SIZE;
      if hdr == 2 { m[2] := VSA_MAGIC_NUMBER; }
      mem, this.hdr := m, hdr;
      blocks := [Block(1, words - 1 - hdr, true)];
    }

    method NextHdr(h: nat) returns (next: nat)
      requires h < mem.Length
      ensures next == After(hdr, mem[..], h)
    {
      next := h + hdr + Abs(mem[h]) / WORD_SIZE;
    }

    method WriteHeader(h: nat, blockSize: int)
      requires 1 <= hdr <= 2 && h + hdr <= mem.Length
      modifies mem
      ensures mem[h] == blockSize && (hdr == 2 ==> mem[h + 1] == VSA_MAGIC_NUMBER)
      ensures forall i :: 0 <= i < mem.Length && !(h <= i < h + hdr) ==> mem[i] == old(mem[i])
    {
      mem[h] := blockSize;
      if hdr == 2 { mem[h + 1] := VSA_MAGIC_NUMBER; }
    }

    method CommitAlloc(block: nat, runTotalBytes: nat, requestSize: nat, ghost from: nat, ghost to: nat, ghost need: nat)
      requires Valid() && from < to <= |blocks| && block == blocks[from].addr
      requires requestSize == need * WORD_SIZE && need > 0
      requires runTotalBytes == Total(hdr, blocks[from..to]) * WORD_SIZE
      requires Total(hdr, blocks[from..to]) >= need + hdr + 1
      modifies this`blocks, mem
      ensures Valid()
      ensures var run := old(Total(hdr, blocks[from..to]));
              && blocks == old(blocks[..from]) + Committed(hdr, block, run, need) + old(blocks[to..])
              && forall i :: 0 <= i < mem.Length && !(block <= i < block + run) ==> mem[i] == old(mem[i])
      ensures var run := old(Total(hdr, blocks[from..to]));
              Committed(hdr, block, run, need) ==
                if run >= need + 2 * hdr + 1 then [Block(block, need, false), Block(block + hdr + need, run - need - 2 * hdr, true)]
                else [Block(block, run - hdr, false)]
    {
      ghost var run, m := Total(hdr, blocks[from..to]), mem[..];
      TilesSection(hdr, m, blocks, 1, mem.Length, from, to);
      WriteHeaders(block, runTotalBytes, requestSize, run, need);
      ghost var mid, m' := Committed(hdr, block, run, need), mem[..];
      CommittedTiles(hdr, m', block, run, need);
      TilesReplace(hdr, m, m', blocks, from, to, mid);
      blocks := blocks[..from] + mid + blocks[to..];
      CommittedExact(hdr, block, run, need);
    }

    /** The writes of CommitAlloc: one header, or two when what is left can hold a block. */
    method WriteHeaders(block: nat, runTotalBytes: nat, requestSize: nat, ghost run: nat, ghost need: nat)
      requires 1 <= hdr <= 2 && requestSize == need * WORD_SIZE && need > 0
      requires runTotalBytes == run * WORD_SIZE && run >= need + hdr + 1 && block + run <= mem.Length
      modifies mem
      ensures HeadersOf(hdr, mem[..], Committed(hdr, block, run, need))
      ensures forall i :: 0 <= i < mem.Length && !(block <= i < block + run) ==> mem[i] == old(mem[i])
    {
      var fullPayload := runTotalBytes - hdr * WORD_SIZE;
      var remaining := fullPayload - requestSize;
      ghost var mid := Committed(hdr, block, run, need);
      if remaining >= hdr * WORD_SIZE + WORD_SIZE {
        var newFree := block + hdr + requestSize / WORD_SIZE;
        assert mid[1].addr == newFree;
        WriteHeader(newFree, remaining - hdr * WORD_SIZE);
        WriteHeader(block, 0 - requestSize);
      } else {
        WriteHeader(block, 0 - fullPayload);
      }
    }

    /** The search of FindFitAndCommit: a stretch of free blocks that is long enough. */
    method FindFit(requestSize: nat, ghost need: nat) returns (runStart: nat, runTotalBytes: nat, ghost fit: Fit)
      requires Valid() && requestSize == need * WORD_SIZE && need > 0
      ensures fit == FirstFit(hdr, blocks, 0, 0, need + hdr + 1)
      ensures match fit
              case NoFit => runStart == 0
              case Fit(from, to) => runStart == blocks[from].addr > 0 && runTotalBytes == Total(hdr, blocks[from..to]) * WORD_SIZE
    {
      ghost var m, bs, words := mem[..], blocks, need + hdr + 1;
      var cur := 1;
      StartScan(hdr, m, bs, words);
      runStart, runTotalBytes := 0, 0;
      ghost var from, at := 0, 0;
      while cur < mem.Length
        invariant Counting(hdr, m, bs, from, at, cur, words, runStart, runTotalBytes) && 0 < cur
        decreases mem.Length - cur
      {
        if mem[cur] > 0 {
          ScanTake(hdr, m, bs, from, at, cur, words, runStart, runTotalBytes);
          var partTotalBytes := hdr * WORD_SIZE + mem[cur];
          if runTotalBytes == 0 {
            runStart := cur;
          }
          runTotalBytes := runTotalBytes + partTotalBytes;
          if runTotalBytes >= requestSize + (hdr * WORD_SIZE + WORD_SIZE) {
            fit := Fit(from, at + 1);
            return;
          }
          at := at + 1;
        } else {
          ScanSkip(hdr, m, bs, from, at, cur, words);
          runStart, runTotalBytes := 0, 0;
          from, at := at + 1, at + 1;
        }
        cur := NextHdr(cur);
      }
      ScanOver(hdr, m, bs, from, at, cur, words);
      return 0, 0, NoFit;
    }

    /** Returns 0, which is no header, for NULL. */
    method FindFitAndCommit(requestSize: nat, ghost need: nat) returns (block: nat, ghost fit: Fit)
      requires Valid() && requestSize == need * WORD_SIZE && need > 0
      modifies this`blocks, mem
      ensures Valid() && blocks == Allocated(hdr, old(blocks), need)
      ensures fit == FirstFit(hdr, old(blocks), 0, 0, need + hdr + 1)
      ensures match fit
              case NoFit => block == 0 && mem[..] == old(mem[..])
              case Fit(from, to) =>
                && block == old(blocks)[from].addr > 0
                && forall i :: 0 <= i < mem.Length && !(block <= i < block + Total(hdr, old(blocks)[from..to])) ==> mem[i] == old(mem[i])
    {
      var runTotalBytes;
      block, runTotalBytes, fit := FindFit(requestSize, need);
      if block != 0 {
        AllocatedAt(hdr, blocks, need, fit.from, fit.to);
        CommitAlloc(block, runTotalBytes, requestSize, fit.from, fit.to, need);
      }
    }

    /** Returns the word index of the payload, or 0 for NULL. */
    method VSAAlloc(blockSize: nat) returns (payload: nat)
      requires Valid()
      modifies this`blocks, mem
      ensures Valid()
      ensures payload != 0 <==> blockSize > 0 && LargestChunk(hdr, old(blocks)) * WORD_SIZE >= AlignUp(blockSize) + WORD_SIZE
      ensures payload == 0 ==> blocks == old(blocks) && mem[..] == old(mem[..])
      ensures payload != 0 ==>
                exists b :: Inserted(Live(old(blocks)), b, Live(blocks)) && b.addr + hdr == payload && b.words * WORD_SIZE >= blockSize
                            && AlignUp(blockSize) <= b.words * WORD_SIZE < AlignUp(blockSize) + (hdr + 1) * WORD_SIZE
      ensures payload != 0 ==> TookFirst(hdr, old(blocks), payload, AlignUp(blockSize)) && Economical(hdr, old(blocks), blocks, AlignUp(blockSize))
      ensures SameInUse(hdr, old(blocks), old(mem[..]), mem[..])
    {
      var requestSize := AlignUp(blockSize);
      ghost var need := AlignedNeed(blockSize);
      AllocatedIffBytes(hdr, blocks, need);
      ghost var m, bs := mem[..], blocks;
      LiveInside(hdr, m, bs);
      if requestSize == 0 {
        return 0;
      }
      var block, fit := FindFitAndCommit(requestSize, need);
      if block == 0 {
        return 0;
      }
      payload := block + hdr;
      SameInUseOutside(hdr, bs, m, mem[..], fit.from, fit.to);
      ghost var b := AllocatedBlock(hdr, bs, need);
      ServedWell(hdr, m, bs, need, payload);
    }

    /** The caller hands in NULL or a payload it was given and has not freed. */
    method VSAFree(payload: nat)
      requires Valid()
      requires payload != 0 ==> exists k :: 0 <= k < |blocks| && !blocks[k].free && payload == blocks[k].addr + hdr
      modifies this`blocks, mem
      ensures Valid()
      ensures if payload == 0 then blocks == old(blocks) && mem[..] == old(mem[..])
              else
                && (exists b :: Inserted(Live(blocks), b, Live(old(blocks))) && b.addr + hdr == payload)
                && forall i :: 0 <= i < mem.Length && !(payload - hdr <= i < payload) ==> mem[i] == old(mem[i])
    {
      if payload == 0 {
        return;
      }
      ghost var k :| 0 <= k < |blocks| && !blocks[k].free && payload == blocks[k].addr + hdr;
      ghost var m, bs := mem[..], blocks;
      TilesSection(hdr, m, bs, 1, |m|, k, k + 1);
      assert bs[k..k + 1] == [bs[k]] && m[payload - hdr] == Stored(bs[k]);
      WriteHeader(payload - hdr, 0 - mem[payload - hdr]);
      blocks := bs[k := bs[k].(free := true)];
      FreedTiles(hdr, m, mem[..], bs, k);
      FreedMeaning(bs, k);
    }

    /** One turn of the inner loop of Defrag: the free block behind `curr` is made part of it. */
    method Swallow(curr: nat, next: nat, ghost k: nat, ghost m0: seq<int>, ghost blocks0: seq<Block>) returns (next': nat)
      requires Valid() && Coalescing(hdr, m0, blocks0, mem[..], blocks, k) && curr == blocks[k].addr
      requires next == curr + Size(hdr, blocks[k]) && next < mem.Length && mem[next] > 0
      modifies this`blocks, mem
      ensures Valid() && Coalescing(hdr, m0, blocks0, mem[..], blocks, k) && next' == curr + Size(hdr, blocks[k]) > next
    {
      ghost var m, bs := mem[..], blocks;
      HeaderAfter(hdr, m, bs, k);
      mem[curr] := mem[curr] + hdr * WORD_SIZE + mem[next];
      assert mem[..] == m[curr := Stored(Join(hdr, bs[k], bs[k + 1]))];
      CoalescingStep(hdr, m0, blocks0, m, bs, mem[..], k);
      blocks := Joined(hdr, bs, k);
      next' := NextHdr(next);
    }

    /** The inner loop of Defrag. */
    method Coalesce(curr: nat, ghost k: nat)
      requires Valid() && k < |blocks| && blocks[k].addr == curr && blocks[k].free
      modifies this`blocks, mem
      ensures Valid() && Coalescing(hdr, old(mem[..]), old(blocks), mem[..], blocks, k)
      ensures k + 1 < |blocks| ==> !blocks[k + 1].free
    {
      ghost var m0, bs0 := mem[..], blocks;
      CoalescingStart(hdr, m0, bs0, k);
      HeaderAfter(hdr, m0, bs0, k);
      var next := NextHdr(curr);
      while next < mem.Length && mem[next] > 0
        invariant Valid() && Coalescing(hdr, m0, bs0, mem[..], blocks, k) && next == curr + Size(hdr, blocks[k])
        decreases mem.Length - next
      {
        next := Swallow(curr, next, k, m0, bs0);
      }
      HeaderAfter(hdr, mem[..], blocks, k);
    }

    method Defrag()
      requires Valid()
      modifies this`blocks, mem
      ensures Valid() && blocks == Merged(hdr, old(blocks)) && Live(blocks) == Live(old(blocks))
      ensures SameInUse(hdr, old(blocks), old(mem[..]), mem[..])
    {
      ghost var m0, bs0, k := mem[..], blocks, 0;
      var curr := 1;
      WalkStart(hdr, m0, bs0);
      while curr < mem.Length
        invariant Walking(hdr, m0, bs0, mem[..], blocks, k, curr)
        decreases mem.Length - curr
      {
        curr := DefragAt(curr, k, m0, bs0);
        k := k + 1;
      }
      WalkedAll(hdr, mem[..], blocks, k);
    }

    /** One turn of the outer loop of Defrag. */
    method DefragAt(curr: nat, ghost k: nat, ghost m0: seq<int>, ghost blocks0: seq<Block>) returns (next: nat)
      requires Valid() && Walking(hdr, m0, blocks0, mem[..], blocks, k, curr) && curr < mem.Length
      modifies this`blocks, mem
      ensures Valid() && Walking(hdr, m0, blocks0, mem[..], blocks, k + 1, next) && curr < next
    {
      ghost var m, bs := mem[..], blocks;
      HeaderAt(hdr, m, bs, k);
      if mem[curr] > 0 {
        Coalesce(curr, k);
        WalkCoalesced(hdr, m0, blocks0, m, bs, mem[..], blocks, k, curr);
      }
      WalkOn(hdr, m0, blocks0, mem[..], blocks, k, curr);
      next := NextHdr(curr);
    }

    /** The scan at the end of VSALargestChunkAvailable. */
    method LargestFreeBlock() returns (largest: nat)
      requires Valid()
      ensures largest == Largest(blocks) * WORD_SIZE
    {
      var curr := 1;
      largest := 0;
      ghost var k, m, bs := 0, mem[..], blocks;
      assert bs[0..] == bs;
      while curr < mem.Length
        invariant k <= |bs| && curr == 1 + Total(hdr, bs[..k])
        invariant Max(largest, Largest(bs[k..]) * WORD_SIZE) == Largest(bs) * WORD_SIZE
        decreases mem.Length - curr
      {
        HeaderAt(hdr, m, bs, k);
        assert bs[k..][1..] == bs[k + 1..];
        if mem[curr] > 0 && mem[curr] > largest {
          largest := mem[curr];
        }
        curr := NextHdr(curr);
        k := k + 1;
      }
      WalkedAll(hdr, m, bs, k);
    }

    /** In bytes, after coalescing. */
    method VSALargestChunkAvailable() returns (largest: nat)
      requires Valid()
      modifies this`blocks, mem
      ensures Valid() && Live(blocks) == Live(old(blocks)) && SameInUse(hdr, old(blocks), old(mem[..]), mem[..])
      ensures largest == LargestChunk(hdr, old(blocks)) * WORD_SIZE
      ensures LargestChunk(hdr, blocks) == LargestChunk(hdr, old(blocks))
    {
      TilesTotal(hdr, mem[..], blocks, 1, mem.Length);
      MergedKeeps(hdr, blocks);
      LargestOfMerged(hdr, blocks);
      Defrag();
      largest := LargestFreeBlock();
    }
  }

  /** VSAInit on a buffer of `totalSize` bytes at byte address `pool`. */
  method VSAInit(pool: nat, totalSize: nat, hdr: nat) returns (vsa: Vsa?)
    requires 1 <= hdr <= 2
    ensures var offset := AlignUp(pool) - pool;
            vsa == null <==> totalSize <= offset || AlignDown(totalSize - offset) < WORD_SIZE + hdr * WORD_SIZE + WORD_SIZE
    ensures vsa != null ==>
              && fresh(vsa) && fresh(vsa.mem) && vsa.Valid() && vsa.hdr == hdr
              && (AlignUp(pool) - pool) + vsa.mem.Length * WORD_SIZE <= totalSize < (AlignUp(pool) - pool) + (vsa.mem.Length + 1) * WORD_SIZE
              && AlignUp(pool) - pool < WORD_SIZE
              && vsa.blocks == [Block(1, vsa.mem.Length - 1 - hdr, true)]
  {
    var alignmentOffset := AlignUp(pool) - pool;
    if totalSize <= alignmentOffset {
      return null;
    }
    var alignedPoolSize := AlignDown(totalSize - alignmentOffset);
    if alignedPoolSize < WORD_SIZE + hdr * WORD_SIZE + WORD_SIZE {
      return null;
    }
    vsa := new Vsa(alignedPoolSize / WORD_SIZE, hdr);
  }

  // ---------- equal requests ----------

  lemma FreshChunk(hdr: nat, words: nat)
    requires words > 0
    ensures LargestChunk(hdr, [Block(1, words, true)]) == words && Apart([Block(1, words, true)])
  {
    var whole := [Block(1, words, true)];
    assert whole[1..] == [];
    assert LongestRun(hdr, whole, 0) == LongestRun(hdr, whole[1..], hdr + words);
  }

  /** There is room for n requests, each with its header, and for a word to spare. */
  predicate RoomFor(hdr: nat, blocks: seq<Block>, request: nat, n: nat) {
    Apart(blocks) && (n > 0 ==> LargestChunk(hdr, blocks) * WORD_SIZE + hdr * WORD_SIZE >= n * (request + hdr * WORD_SIZE) + WORD_SIZE)
  }

  lemma RoomNow(step: nat, n: nat)
    requires n > 0
    ensures n * step == (n - 1) * step + step
  {}

  lemma RoomNext(hdr: nat, before: seq<Block>, after: seq<Block>, request: nat, n: nat)
    requires n > 0 && RoomFor(hdr, before, request, n)
    ensures LargestChunk(hdr, before) * WORD_SIZE >= request + WORD_SIZE
    ensures Economical(hdr, before, after, request) ==> RoomFor(hdr, after, request, n - 1)
  {
    RoomNow(request + hdr * WORD_SIZE, n);
  }

  lemma InsertedLonger(fewer: seq<Block>, b: Block, more: seq<Block>)
    requires Inserted(fewer, b, more)
    ensures |more| == |fewer| + 1
  {}

  method ServeNext(vsa: Vsa, blockSize: nat, ghost n: nat) returns (payload: nat)
    requires vsa.Valid() && blockSize > 0 && n > 0 && RoomFor(vsa.hdr, vsa.blocks, AlignUp(blockSize), n)
    modifies vsa`blocks, vsa.mem
    ensures vsa.Valid() && payload != 0 && |Live(vsa.blocks)| == |old(Live(vsa.blocks))| + 1
    ensures RoomFor(vsa.hdr, vsa.blocks, AlignUp(blockSize), n - 1)
  {
    ghost var before := vsa.blocks;
    RoomNext(vsa.hdr, before, before, AlignUp(blockSize), n);
    payload := vsa.VSAAlloc(blockSize);
    ghost var b :| Inserted(Live(before), b, Live(vsa.blocks)) && b.addr + vsa.hdr == payload;
    InsertedLonger(Live(before), b, Live(vsa.blocks));
    RoomNext(vsa.hdr, before, vsa.blocks, AlignUp(blockSize), n);
  }

  /** A fresh pool serves k equal requests whenever they fit one after the other, headers included, with a word to spare. */
  method FreshPoolServes(words: nat, hdr: nat, blockSize: nat, k: nat) returns (vsa: Vsa, payloads: seq<nat>)
    requires 1 <= hdr <= 2 && words >= 1 + hdr + 1 && blockSize > 0
    requires WORD_SIZE + k * (AlignUp(blockSize) + hdr * WORD_SIZE) + WORD_SIZE <= words * WORD_SIZE
    ensures vsa.Valid() && vsa.mem.Length == words && |payloads| == k && |Live(vsa.blocks)| == k
    ensures forall i :: 0 <= i < k ==> payloads[i] != 0
  {
    vsa := new Vsa(words, hdr);
    FreshChunk(hdr, words - 1 - hdr);
    payloads := [];
    while |payloads| < k
      invariant vsa.Valid() && fresh(vsa) && fresh(vsa.mem) && vsa.hdr == hdr && vsa.mem.Length == words
      invariant |payloads| == |Live(vsa.blocks)| <= k && RoomFor(hdr, vsa.blocks, AlignUp(blockSize), k - |payloads|)
      invariant forall i :: 0 <= i < |payloads| ==> payloads[i] != 0
    {
      var payload := ServeNext(vsa, blockSize, k - |payloads|);
      payloads := payloads + [payload];
    }
  }
}
