/** The part of Python's `difflib.SequenceMatcher` that the pattern aligner
    relies on: `get_matching_blocks()` (without its final sentinel block,
    which every caller slices off) and `ratio()`, for sequences compared with
    no junk function. A longest matching block is searched for in a window,
    the search recurses on the parts of the window left and right of it, and
    adjacent blocks are merged; the ratio is 2 * matched / total. */
module Difflib {
  import opened Common
  import opened Seqs

  /** A matching block `(i, j, n)`: `x[i..i+n] == y[j..j+n]`. */
  datatype Block = Block(a: nat, b: nat, size: nat)

  /** `m` is a matching block lying inside the window
      `x[alo..ahi]` x `y[blo..bhi]`. */
  ghost predicate IsMatch<T>(x: seq<T>, y: seq<T>, m: Block, alo: nat, ahi: nat, blo: nat, bhi: nat)
  {
    && alo <= m.a && m.a + m.size <= ahi <= |x|
    && blo <= m.b && m.b + m.size <= bhi <= |y|
    && x[m.a..m.a + m.size] == y[m.b..m.b + m.size]
  }

  /** Each block ends, in both sequences, before the next one starts. */
  ghost predicate Ordered(bs: seq<Block>)
  {
    forall k :: 0 <= k < |bs| - 1 ==>
      bs[k].a + bs[k].size <= bs[k + 1].a && bs[k].b + bs[k].size <= bs[k + 1].b
  }

  /** The shape `get_matching_blocks` promises: non-empty, non-overlapping
      matching blocks, strictly increasing in both sequences. */
  ghost predicate ValidBlocks<T>(x: seq<T>, y: seq<T>, bs: seq<Block>, alo: nat, ahi: nat, blo: nat, bhi: nat)
  {
    && Ordered(bs)
    && forall k :: 0 <= k < |bs| ==> bs[k].size > 0 && IsMatch(x, y, bs[k], alo, ahi, blo, bhi)
  }

  ghost predicate InBounds<T>(x: seq<T>, bs: seq<Block>)
  {
    forall k :: 0 <= k < |bs| ==> bs[k].a + bs[k].size <= |x|
  }

  /** Length of the common run starting at `x[i]` and `y[j]`, inside the window. */
  function RunLength<T(==)>(x: seq<T>, y: seq<T>, i: nat, j: nat, ahi: nat, bhi: nat): (k: nat)
    requires i <= ahi <= |x| && j <= bhi <= |y|
    ensures i + k <= ahi && j + k <= bhi
    decreases ahi - i
  {
    if i < ahi && j < bhi && x[i] == y[j] then 1 + RunLength(x, y, i + 1, j + 1, ahi, bhi)
    else 0
  }

  /** The run is a common slice of both sequences. */
  lemma {:induction false} RunLengthMatches<T>(x: seq<T>, y: seq<T>, i: nat, j: nat, ahi: nat, bhi: nat)
    requires i <= ahi <= |x| && j <= bhi <= |y|
    ensures var k := RunLength(x, y, i, j, ahi, bhi);
      x[i..i + k] == y[j..j + k]
    decreases ahi - i
  {
    var k := RunLength(x, y, i, j, ahi, bhi);
    if k > 0 {
      RunLengthMatches(x, y, i + 1, j + 1, ahi, bhi);
      assert x[i..i + k] == [x[i]] + x[i + 1..i + k];
      assert y[j..j + k] == [y[j]] + y[j + 1..j + k];
    }
  }

  /** Every matching block is covered by the run starting where it starts. */
  lemma {:induction false} RunLengthCovers<T>(x: seq<T>, y: seq<T>, m: Block, alo: nat, ahi: nat, blo: nat, bhi: nat)
    requires IsMatch(x, y, m, alo, ahi, blo, bhi)
    ensures m.size <= RunLength(x, y, m.a, m.b, ahi, bhi)
    decreases m.size
  {
    if m.size > 0 {
      assert x[m.a] == x[m.a..m.a + m.size][0] == y[m.b..m.b + m.size][0] == y[m.b];
      var rest := Block(m.a + 1, m.b + 1, m.size - 1);
      assert x[rest.a..rest.a + rest.size] == x[m.a..m.a + m.size][1..];
      assert y[rest.b..rest.b + rest.size] == y[m.b..m.b + m.size][1..];
      RunLengthCovers(x, y, rest, alo, ahi, blo, bhi);
    }
  }

  /** Scans the window from `(i, j)` on, row by row, keeping the first
      strictly longer run found: ties go to the block that starts earliest
      in `x`, then earliest in `y`, as `find_longest_match` breaks them. */
  function LongestFrom<T(==)>(x: seq<T>, y: seq<T>, alo: nat, ahi: nat, blo: nat, bhi: nat, i: nat, j: nat, best: Block): (r: Block)
    requires alo <= i <= ahi <= |x| && blo <= j <= bhi <= |y|
    requires IsMatch(x, y, best, alo, ahi, blo, bhi)
    ensures IsMatch(x, y, r, alo, ahi, blo, bhi)
    ensures best.size <= r.size
    decreases ahi - i, bhi - j
  {
    if i == ahi then best
    else if j == bhi then LongestFrom(x, y, alo, ahi, blo, bhi, i + 1, blo, best)
    else
      var k := RunLength(x, y, i, j, ahi, bhi);
      RunLengthMatches(x, y, i, j, ahi, bhi);
      LongestFrom(x, y, alo, ahi, blo, bhi, i, j + 1, if k > best.size then Block(i, j, k) else best)
  }

  /** No run starting at a position the scan still visits is longer than
      the block it ends with. */
  lemma {:induction false} LongestFromMaximal<T>(x: seq<T>, y: seq<T>, alo: nat, ahi: nat, blo: nat, bhi: nat, i: nat, j: nat, best: Block)
    requires alo <= i <= ahi <= |x| && blo <= j <= bhi <= |y|
    requires IsMatch(x, y, best, alo, ahi, blo, bhi)
    ensures forall i', j' :: i <= i' < ahi && blo <= j' < bhi && (i < i' || j <= j') ==>
      RunLength(x, y, i', j', ahi, bhi) <= LongestFrom(x, y, alo, ahi, blo, bhi, i, j, best).size
    decreases ahi - i, bhi - j, 1
  {
    if i < ahi && j == bhi {
      NextRowMaximal(x, y, alo, ahi, blo, bhi, i, best);
    } else if i < ahi {
      NextColumnMaximal(x, y, alo, ahi, blo, bhi, i, j, best);
    }
  }

  lemma {:induction false} NextRowMaximal<T>(x: seq<T>, y: seq<T>, alo: nat, ahi: nat, blo: nat, bhi: nat, i: nat, best: Block)
    requires alo <= i < ahi <= |x| && blo <= bhi <= |y|
    requires IsMatch(x, y, best, alo, ahi, blo, bhi)
    ensures forall i', j' :: i <= i' < ahi && blo <= j' < bhi && (i < i' || bhi <= j') ==>
      RunLength(x, y, i', j', ahi, bhi) <= LongestFrom(x, y, alo, ahi, blo, bhi, i, bhi, best).size
    decreases ahi - i, 0, 0
  {
    assert LongestFrom(x, y, alo, ahi, blo, bhi, i, bhi, best) == LongestFrom(x, y, alo, ahi, blo, bhi, i + 1, blo, best);
    LongestFromMaximal(x, y, alo, ahi, blo, bhi, i + 1, blo, best);
  }

  lemma {:induction false} NextColumnMaximal<T>(x: seq<T>, y: seq<T>, alo: nat, ahi: nat, blo: nat, bhi: nat, i: nat, j: nat, best: Block)
    requires alo <= i < ahi <= |x| && blo <= j < bhi <= |y|
    requires IsMatch(x, y, best, alo, ahi, blo, bhi)
    ensures forall i', j' :: i <= i' < ahi && blo <= j' < bhi && (i < i' || j <= j') ==>
      RunLength(x, y, i', j', ahi, bhi) <= LongestFrom(x, y, alo, ahi, blo, bhi, i, j, best).size
    decreases ahi - i, bhi - j, 0
  {
    var k := RunLength(x, y, i, j, ahi, bhi);
    RunLengthMatches(x, y, i, j, ahi, bhi);
    var next := if k > best.size then Block(i, j, k) else best;
    assert IsMatch(x, y, next, alo, ahi, blo, bhi);
    var r := LongestFrom(x, y, alo, ahi, blo, bhi, i, j + 1, next);
    assert LongestFrom(x, y, alo, ahi, blo, bhi, i, j, best) == r;
    assert k <= next.size <= r.size;
    LongestFromMaximal(x, y, alo, ahi, blo, bhi, i, j + 1, next);
    ExtendMaximal(x, y, ahi, blo, bhi, i, j, r.size);
  }

  /** A bound on the runs from `(i, j + 1)` on and on the run at `(i, j)`
      bounds the runs from `(i, j)` on. */
  lemma ExtendMaximal<T>(x: seq<T>, y: seq<T>, ahi: nat, blo: nat, bhi: nat, i: nat, j: nat, bound: nat)
    requires i < ahi <= |x| && blo <= j < bhi <= |y|
    requires forall i', j' :: i <= i' < ahi && blo <= j' < bhi && (i < i' || j + 1 <= j') ==>
      RunLength(x, y, i', j', ahi, bhi) <= bound
    requires RunLength(x, y, i, j, ahi, bhi) <= bound
    ensures forall i', j' :: i <= i' < ahi && blo <= j' < bhi && (i < i' || j <= j') ==>
      RunLength(x, y, i', j', ahi, bhi) <= bound
  {
  }

  /** `find_longest_match(alo, ahi, blo, bhi)`: a longest matching block of
      the window; `(alo, blo, 0)` when the window has none. */
  function LongestMatch<T(==)>(x: seq<T>, y: seq<T>, alo: nat, ahi: nat, blo: nat, bhi: nat): (m: Block)
    requires alo <= ahi <= |x| && blo <= bhi <= |y|
    ensures IsMatch(x, y, m, alo, ahi, blo, bhi)
  {
    LongestFrom(x, y, alo, ahi, blo, bhi, alo, blo, Block(alo, blo, 0))
  }

  /** No run inside the window is longer than the block found. */
  lemma LongestMatchMaximal<T>(x: seq<T>, y: seq<T>, alo: nat, ahi: nat, blo: nat, bhi: nat)
    requires alo <= ahi <= |x| && blo <= bhi <= |y|
    ensures forall i, j :: alo <= i < ahi && blo <= j < bhi ==>
      RunLength(x, y, i, j, ahi, bhi) <= LongestMatch(x, y, alo, ahi, blo, bhi).size
  {
    LongestFromMaximal(x, y, alo, ahi, blo, bhi, alo, blo, Block(alo, blo, 0));
  }

  /** No matching block of the window is longer than the one found. */
  lemma LongestMatchIsLongest<T>(x: seq<T>, y: seq<T>, alo: nat, ahi: nat, blo: nat, bhi: nat, n: Block)
    requires alo <= ahi <= |x| && blo <= bhi <= |y|
    requires IsMatch(x, y, n, alo, ahi, blo, bhi)
    ensures n.size <= LongestMatch(x, y, alo, ahi, blo, bhi).size
  {
    RunLengthCovers(x, y, n, alo, ahi, blo, bhi);
    LongestMatchMaximal(x, y, alo, ahi, blo, bhi);
  }

  lemma ValidJoin<T>(x: seq<T>, y: seq<T>, left: seq<Block>, m: Block, right: seq<Block>, alo: nat, ahi: nat, blo: nat, bhi: nat)
    requires m.size > 0 && IsMatch(x, y, m, alo, ahi, blo, bhi)
    requires ValidBlocks(x, y, left, alo, m.a, blo, m.b)
    requires ValidBlocks(x, y, right, m.a + m.size, ahi, m.b + m.size, bhi)
    ensures ValidBlocks(x, y, left + [m] + right, alo, ahi, blo, bhi)
  {
    JoinMatches(x, y, left, m, right, alo, ahi, blo, bhi);
    JoinOrdered(x, y, left, m, right, alo, ahi, blo, bhi);
  }

  lemma JoinMatches<T>(x: seq<T>, y: seq<T>, left: seq<Block>, m: Block, right: seq<Block>, alo: nat, ahi: nat, blo: nat, bhi: nat)
    requires m.size > 0 && IsMatch(x, y, m, alo, ahi, blo, bhi)
    requires ValidBlocks(x, y, left, alo, m.a, blo, m.b)
    requires ValidBlocks(x, y, right, m.a + m.size, ahi, m.b + m.size, bhi)
    ensures forall k :: 0 <= k < |left + [m] + right| ==>
      (left + [m] + right)[k].size > 0 && IsMatch(x, y, (left + [m] + right)[k], alo, ahi, blo, bhi)
  {
    var bs := left + [m] + right;
    forall k | 0 <= k < |bs|
      ensures bs[k].size > 0 && IsMatch(x, y, bs[k], alo, ahi, blo, bhi)
    {
      if k < |left| {
        assert bs[k] == left[k];
        assert IsMatch(x, y, left[k], alo, m.a, blo, m.b);
      } else if k > |left| {
        assert bs[k] == right[k - |left| - 1];
        assert IsMatch(x, y, right[k - |left| - 1], m.a + m.size, ahi, m.b + m.size, bhi);
      }
    }
  }

  lemma JoinOrdered<T>(x: seq<T>, y: seq<T>, left: seq<Block>, m: Block, right: seq<Block>, alo: nat, ahi: nat, blo: nat, bhi: nat)
    requires m.size > 0 && IsMatch(x, y, m, alo, ahi, blo, bhi)
    requires ValidBlocks(x, y, left, alo, m.a, blo, m.b)
    requires ValidBlocks(x, y, right, m.a + m.size, ahi, m.b + m.size, bhi)
    ensures Ordered(left + [m] + right)
  {
    var bs := left + [m] + right;
    forall k | 0 <= k < |bs| - 1
      ensures bs[k].a + bs[k].size <= bs[k + 1].a && bs[k].b + bs[k].size <= bs[k + 1].b
    {
      if k < |left| - 1 {
        assert bs[k] == left[k] && bs[k + 1] == left[k + 1];
      } else if k == |left| - 1 {
        assert bs[k] == left[k] && bs[k + 1] == m;
        assert IsMatch(x, y, left[k], alo, m.a, blo, m.b);
      } else if k == |left| {
        assert bs[k + 1] == right[0];
        assert IsMatch(x, y, right[0], m.a + m.size, ahi, m.b + m.size, bhi);
      } else {
        assert bs[k] == right[k - |left| - 1] && bs[k + 1] == right[k - |left|];
      }
    }
  }

  /** The recursion of `get_matching_blocks`: the longest block of the
      window, then the same search left of it and right of it. The result
      comes out in increasing order, which is what the library's final sort
      produces. */
  function MatchingBlocksIn<T(==)>(x: seq<T>, y: seq<T>, alo: nat, ahi: nat, blo: nat, bhi: nat): (bs: seq<Block>)
    requires alo <= ahi <= |x| && blo <= bhi <= |y|
    ensures ValidBlocks(x, y, bs, alo, ahi, blo, bhi)
    decreases ahi - alo + bhi - blo
  {
    var m := LongestMatch(x, y, alo, ahi, blo, bhi);
    if m.size == 0 then []
    else
      var left := MatchingBlocksIn(x, y, alo, m.a, blo, m.b);
      var right := MatchingBlocksIn(x, y, m.a + m.size, ahi, m.b + m.size, bhi);
      ValidJoin(x, y, left, m, right, alo, ahi, blo, bhi);
      left + [m] + right
  }

  /** The final pass of `get_matching_blocks`: a block that continues the
      current one in both sequences is merged into it. */
  function CollapseFrom(cur: Block, bs: seq<Block>): seq<Block>
    decreases |bs|
  {
    if |bs| == 0 then (if cur.size > 0 then [cur] else [])
    else if cur.a + cur.size == bs[0].a && cur.b + cur.size == bs[0].b then
      CollapseFrom(Block(cur.a, cur.b, cur.size + bs[0].size), bs[1..])
    else (if cur.size > 0 then [cur] else []) + CollapseFrom(bs[0], bs[1..])
  }

  lemma ValidTail<T>(x: seq<T>, y: seq<T>, bs: seq<Block>, alo: nat, ahi: nat, blo: nat, bhi: nat)
    requires |bs| > 0 && ValidBlocks(x, y, bs, alo, ahi, blo, bhi)
    ensures bs[0].size > 0 && IsMatch(x, y, bs[0], alo, ahi, blo, bhi)
    ensures ValidBlocks(x, y, bs[1..], alo, ahi, blo, bhi)
    ensures |bs| > 1 ==> bs[0].a + bs[0].size <= bs[1].a && bs[0].b + bs[0].size <= bs[1].b
  {
    var t := bs[1..];
    assert forall k :: 0 <= k < |t| ==> t[k] == bs[k + 1];
  }

  lemma ValidCons<T>(x: seq<T>, y: seq<T>, cur: Block, rest: seq<Block>, alo: nat, ahi: nat, blo: nat, bhi: nat)
    requires cur.size > 0 && IsMatch(x, y, cur, alo, ahi, blo, bhi)
    requires ValidBlocks(x, y, rest, alo, ahi, blo, bhi)
    requires |rest| > 0 ==> cur.a + cur.size <= rest[0].a && cur.b + cur.size <= rest[0].b
    ensures ValidBlocks(x, y, [cur] + rest, alo, ahi, blo, bhi)
  {
    var r := [cur] + rest;
    assert forall k :: 0 < k < |r| ==> r[k] == rest[k - 1];
  }

  /** Two blocks that continue each other form one block. */
  lemma MergeMatch<T>(x: seq<T>, y: seq<T>, cur: Block, b0: Block, alo: nat, ahi: nat, blo: nat, bhi: nat)
    requires IsMatch(x, y, cur, alo, ahi, blo, bhi) && IsMatch(x, y, b0, alo, ahi, blo, bhi)
    requires cur.a + cur.size == b0.a && cur.b + cur.size == b0.b
    ensures IsMatch(x, y, Block(cur.a, cur.b, cur.size + b0.size), alo, ahi, blo, bhi)
    ensures x[cur.a..cur.a + cur.size + b0.size] == x[cur.a..cur.a + cur.size] + x[b0.a..b0.a + b0.size]
  {
    assert x[cur.a..cur.a + cur.size + b0.size] == x[cur.a..cur.a + cur.size] + x[b0.a..b0.a + b0.size];
    assert y[cur.b..cur.b + cur.size + b0.size] == y[cur.b..cur.b + cur.size] + y[b0.b..b0.b + b0.size];
  }

  lemma {:induction false} CollapseValid<T>(x: seq<T>, y: seq<T>, cur: Block, bs: seq<Block>, alo: nat, ahi: nat, blo: nat, bhi: nat)
    requires IsMatch(x, y, cur, alo, ahi, blo, bhi)
    requires ValidBlocks(x, y, bs, alo, ahi, blo, bhi)
    requires |bs| > 0 ==> cur.a + cur.size <= bs[0].a && cur.b + cur.size <= bs[0].b
    ensures ValidBlocks(x, y, CollapseFrom(cur, bs), alo, ahi, blo, bhi)
    ensures |CollapseFrom(cur, bs)| > 0 ==> cur.a <= CollapseFrom(cur, bs)[0].a && cur.b <= CollapseFrom(cur, bs)[0].b
    decreases |bs|, 1
  {
    if |bs| == 0 {
      if cur.size > 0 {
        ValidCons(x, y, cur, [], alo, ahi, blo, bhi);
        assert [cur] + [] == [cur];
      }
    } else if cur.a + cur.size == bs[0].a && cur.b + cur.size == bs[0].b {
      var merged := Block(cur.a, cur.b, cur.size + bs[0].size);
      MergeStep(x, y, cur, bs, alo, ahi, blo, bhi);
      CollapseValid(x, y, merged, bs[1..], alo, ahi, blo, bhi);
      CollapseMergeShape(cur, bs);
    } else {
      CollapseValidKeep(x, y, cur, bs, alo, ahi, blo, bhi);
    }
  }

  /** Merging `cur` with the block it continues leaves a block that still
      matches and still precedes the rest. */
  lemma MergeStep<T>(x: seq<T>, y: seq<T>, cur: Block, bs: seq<Block>, alo: nat, ahi: nat, blo: nat, bhi: nat)
    requires IsMatch(x, y, cur, alo, ahi, blo, bhi)
    requires ValidBlocks(x, y, bs, alo, ahi, blo, bhi)
    requires |bs| > 0 && cur.a + cur.size == bs[0].a && cur.b + cur.size == bs[0].b
    ensures var merged := Block(cur.a, cur.b, cur.size + bs[0].size);
      && IsMatch(x, y, merged, alo, ahi, blo, bhi)
      && ValidBlocks(x, y, bs[1..], alo, ahi, blo, bhi)
      && (|bs| > 1 ==> merged.a + merged.size <= bs[1].a && merged.b + merged.size <= bs[1].b)
  {
    ValidTail(x, y, bs, alo, ahi, blo, bhi);
    MergeMatch(x, y, cur, bs[0], alo, ahi, blo, bhi);
  }

  lemma {:induction false} CollapseValidKeep<T>(x: seq<T>, y: seq<T>, cur: Block, bs: seq<Block>, alo: nat, ahi: nat, blo: nat, bhi: nat)
    requires IsMatch(x, y, cur, alo, ahi, blo, bhi)
    requires ValidBlocks(x, y, bs, alo, ahi, blo, bhi)
    requires |bs| > 0 && cur.a + cur.size <= bs[0].a && cur.b + cur.size <= bs[0].b
    requires !(cur.a + cur.size == bs[0].a && cur.b + cur.size == bs[0].b)
    ensures ValidBlocks(x, y, CollapseFrom(cur, bs), alo, ahi, blo, bhi)
    ensures |CollapseFrom(cur, bs)| > 0 ==> cur.a <= CollapseFrom(cur, bs)[0].a && cur.b <= CollapseFrom(cur, bs)[0].b
    decreases |bs|, 0
  {
    var b0 := bs[0];
    ValidTail(x, y, bs, alo, ahi, blo, bhi);
    CollapseValid(x, y, b0, bs[1..], alo, ahi, blo, bhi);
    var rest := CollapseFrom(b0, bs[1..]);
    CollapseKeepShape(cur, bs);
    if cur.size > 0 {
      ValidCons(x, y, cur, rest, alo, ahi, blo, bhi);
      assert CollapseFrom(cur, bs) == [cur] + rest;
    } else {
      assert CollapseFrom(cur, bs) == rest;
    }
  }

  /** A block that continues into the next one absorbs it. */
  lemma CollapseMergeShape(cur: Block, bs: seq<Block>)
    requires |bs| > 0 && cur.a + cur.size == bs[0].a && cur.b + cur.size == bs[0].b
    ensures CollapseFrom(cur, bs) == CollapseFrom(Block(cur.a, cur.b, cur.size + bs[0].size), bs[1..])
  {
  }

  /** A block that does not continue into the next one is emitted as is
      (when non-empty) before the collapse of the rest. */
  lemma CollapseKeepShape(cur: Block, bs: seq<Block>)
    requires |bs| > 0 && !(cur.a + cur.size == bs[0].a && cur.b + cur.size == bs[0].b)
    ensures CollapseFrom(cur, bs) == if cur.size > 0 then [cur] + CollapseFrom(bs[0], bs[1..]) else CollapseFrom(bs[0], bs[1..])
  {
    assert [] + CollapseFrom(bs[0], bs[1..]) == CollapseFrom(bs[0], bs[1..]);
  }

  /** The slices of `x` that the blocks cover, in order. */
  function Chunks<T>(x: seq<T>, bs: seq<Block>): (cs: seq<seq<T>>)
    requires InBounds(x, bs)
    ensures |cs| == |bs|
  {
    if |bs| == 0 then [] else [x[bs[0].a..bs[0].a + bs[0].size]] + Chunks(x, bs[1..])
  }

  /** The `k`-th chunk is the slice the `k`-th block covers. */
  lemma {:induction false} ChunksIndex<T>(x: seq<T>, bs: seq<Block>, k: nat)
    requires InBounds(x, bs) && k < |bs|
    ensures Chunks(x, bs)[k] == x[bs[k].a..bs[k].a + bs[k].size]
  {
    if k > 0 {
      InBoundsTail(x, bs);
      ChunksIndex(x, bs[1..], k - 1);
    }
  }

  /** The blocks seen from the second sequence. */
  function Swap(bs: seq<Block>): (r: seq<Block>)
    ensures |r| == |bs|
    ensures forall k :: 0 <= k < |bs| ==> r[k] == Block(bs[k].b, bs[k].a, bs[k].size)
  {
    if |bs| == 0 then [] else [Block(bs[0].b, bs[0].a, bs[0].size)] + Swap(bs[1..])
  }

  /** Number of matched elements: the sum of the block sizes. */
  function Matched(bs: seq<Block>): nat
  {
    if |bs| == 0 then 0 else bs[0].size + Matched(bs[1..])
  }

  lemma ValidInBounds<T>(x: seq<T>, y: seq<T>, bs: seq<Block>, alo: nat, ahi: nat, blo: nat, bhi: nat)
    requires ValidBlocks(x, y, bs, alo, ahi, blo, bhi)
    ensures InBounds(x, bs)
  {
    assert forall k :: 0 <= k < |bs| ==> IsMatch(x, y, bs[k], alo, ahi, blo, bhi);
  }

  lemma InBoundsTail<T>(x: seq<T>, bs: seq<Block>)
    requires |bs| > 0 && InBounds(x, bs)
    ensures bs[0].a + bs[0].size <= |x| && InBounds(x, bs[1..])
  {
    assert forall k :: 0 <= k < |bs| - 1 ==> bs[1..][k] == bs[k + 1];
  }

  lemma {:induction false} CollapseInBounds<T>(x: seq<T>, cur: Block, bs: seq<Block>)
    requires cur.a + cur.size <= |x| && InBounds(x, bs)
    ensures InBounds(x, CollapseFrom(cur, bs))
    decreases |bs|
  {
    if |bs| > 0 {
      InBoundsTail(x, bs);
      var b0 := bs[0];
      if cur.a + cur.size == b0.a && cur.b + cur.size == b0.b {
        CollapseInBounds(x, Block(cur.a, cur.b, cur.size + b0.size), bs[1..]);
      } else {
        CollapseInBounds(x, b0, bs[1..]);
        var r := CollapseFrom(b0, bs[1..]);
        if cur.size > 0 {
          assert forall k :: 0 < k < |r| + 1 ==> ([cur] + r)[k] == r[k - 1];
        }
      }
    }
  }

  lemma ChunksCons<T>(x: seq<T>, b: Block, rest: seq<Block>)
    requires b.a + b.size <= |x| && InBounds(x, rest)
    ensures InBounds(x, [b] + rest)
    ensures Flatten(Chunks(x, [b] + rest)) == x[b.a..b.a + b.size] + Flatten(Chunks(x, rest))
  {
    var r := [b] + rest;
    assert forall k :: 0 < k < |r| ==> r[k] == rest[k - 1];
    assert r[0] == b && r[1..] == rest;
    var cs := Chunks(x, r);
    assert cs == [x[b.a..b.a + b.size]] + Chunks(x, rest);
    assert cs[0] == x[b.a..b.a + b.size] && cs[1..] == Chunks(x, rest);
  }

  /** The text of a merged block followed by the rest. */
  lemma MergedText<T>(x: seq<T>, cur: Block, b0: Block, tail: seq<T>)
    requires cur.a + cur.size == b0.a && b0.a + b0.size <= |x|
    ensures x[cur.a..cur.a + cur.size + b0.size] + tail
         == x[cur.a..cur.a + cur.size] + (x[b0.a..b0.a + b0.size] + tail)
  {
    assert x[cur.a..cur.a + cur.size + b0.size] == x[cur.a..cur.a + cur.size] + x[b0.a..b0.a + b0.size];
  }

  /** Collapsing keeps the covered text: merging two adjacent blocks covers
      the concatenation of their slices. */
  lemma {:induction false} CollapseChunks<T>(x: seq<T>, cur: Block, bs: seq<Block>)
    requires cur.a + cur.size <= |x| && InBounds(x, bs)
    ensures InBounds(x, CollapseFrom(cur, bs))
    ensures Flatten(Chunks(x, CollapseFrom(cur, bs))) == x[cur.a..cur.a + cur.size] + Flatten(Chunks(x, bs))
    decreases |bs|, 1
  {
    CollapseInBounds(x, cur, bs);
    var head := x[cur.a..cur.a + cur.size];
    if |bs| == 0 {
      if cur.size == 0 {
        assert head == [];
      } else {
        ChunksCons(x, cur, []);
        assert [cur] + [] == [cur];
        assert head + [] == head;
      }
    } else if cur.a + cur.size == bs[0].a && cur.b + cur.size == bs[0].b {
      var merged := Block(cur.a, cur.b, cur.size + bs[0].size);
      ChunksHead(x, bs);
      CollapseChunks(x, merged, bs[1..]);
      CollapseMergeShape(cur, bs);
      MergedText(x, cur, bs[0], Flatten(Chunks(x, bs[1..])));
    } else {
      CollapseChunksKeep(x, cur, bs);
    }
  }

  /** The covered text starts with the first block's slice. */
  lemma ChunksHead<T>(x: seq<T>, bs: seq<Block>)
    requires |bs| > 0 && InBounds(x, bs)
    ensures bs[0].a + bs[0].size <= |x| && InBounds(x, bs[1..])
    ensures Flatten(Chunks(x, bs)) == x[bs[0].a..bs[0].a + bs[0].size] + Flatten(Chunks(x, bs[1..]))
  {
    InBoundsTail(x, bs);
    ChunksCons(x, bs[0], bs[1..]);
    assert [bs[0]] + bs[1..] == bs;
  }

  lemma {:induction false} CollapseChunksKeep<T>(x: seq<T>, cur: Block, bs: seq<Block>)
    requires cur.a + cur.size <= |x| && InBounds(x, bs)
    requires |bs| > 0 && !(cur.a + cur.size == bs[0].a && cur.b + cur.size == bs[0].b)
    requires InBounds(x, CollapseFrom(cur, bs))
    ensures Flatten(Chunks(x, CollapseFrom(cur, bs))) == x[cur.a..cur.a + cur.size] + Flatten(Chunks(x, bs))
    decreases |bs|, 0
  {
    ChunksHead(x, bs);
    CollapseChunks(x, bs[0], bs[1..]);
    var rest := CollapseFrom(bs[0], bs[1..]);
    var tail := Flatten(Chunks(x, rest));
    assert tail == Flatten(Chunks(x, bs));
    CollapseKeepShape(cur, bs);
    if cur.size > 0 {
      ChunksCons(x, cur, rest);
      assert Flatten(Chunks(x, [cur] + rest)) == x[cur.a..cur.a + cur.size] + tail;
    } else {
      EmptyPrefix(x[cur.a..cur.a + cur.size], tail);
    }
  }

  lemma EmptyPrefix<T>(s: seq<T>, t: seq<T>)
    requires |s| == 0
    ensures s + t == t
  {
  }

  /** `get_matching_blocks()[:-1]`: the matching blocks of `x` and `y`
      without the final `(len(x), len(y), 0)` sentinel. */
  function MatchingBlocks<T(==)>(x: seq<T>, y: seq<T>): (bs: seq<Block>)
    ensures ValidBlocks(x, y, bs, 0, |x|, 0, |y|)
  {
    var raw := MatchingBlocksIn(x, y, 0, |x|, 0, |y|);
    CollapseValid(x, y, Block(0, 0, 0), raw, 0, |x|, 0, |y|);
    CollapseFrom(Block(0, 0, 0), raw)
  }

  /** Collapsing adjacent blocks neither adds nor loses matched elements. */
  lemma MatchingBlocksText<T>(x: seq<T>, y: seq<T>)
    ensures var raw := MatchingBlocksIn(x, y, 0, |x|, 0, |y|);
      InBounds(x, raw) && Flatten(Chunks(x, MatchingBlocks(x, y))) == Flatten(Chunks(x, raw))
  {
    var raw := MatchingBlocksIn(x, y, 0, |x|, 0, |y|);
    ValidInBounds(x, y, raw, 0, |x|, 0, |y|);
    CollapseChunks(x, Block(0, 0, 0), raw);
    assert x[0..0] == [];
  }

  lemma {:induction false} ChunksLength<T>(x: seq<T>, bs: seq<Block>)
    requires InBounds(x, bs)
    ensures |Flatten(Chunks(x, bs))| == Matched(bs)
  {
    if |bs| > 0 {
      ChunksLength(x, bs[1..]);
    }
  }

  lemma OrderedTail(bs: seq<Block>)
    requires |bs| > 0 && Ordered(bs)
    ensures Ordered(bs[1..])
    ensures |bs| > 1 ==> bs[0].a + bs[0].size <= bs[1].a
  {
    assert forall k :: 0 <= k < |bs| - 1 ==> bs[1..][k] == bs[k + 1];
  }

  /** A slice of `x` followed by a subsequence of what comes after it is a
      subsequence of `x` from any earlier start. */
  lemma SubseqHead<T>(x: seq<T>, lo: nat, i: nat, e: nat, rest: seq<T>)
    requires lo <= i <= e <= |x| && IsSubseq(rest, x[e..])
    ensures IsSubseq(x[i..e] + rest, x[lo..])
  {
    SubseqRefl(x[i..e]);
    SubseqConcat(x[i..e], x[i..e], rest, x[e..]);
    assert x[i..e] + x[e..] == x[i..];
    SubseqPrepend(x[i..e] + rest, x[lo..i], x[i..]);
    assert x[lo..i] + x[i..] == x[lo..];
  }

  /** The text of ordered blocks is a subsequence of `x` from `lo` on. */
  lemma {:induction false} ChunksSubseq<T>(x: seq<T>, bs: seq<Block>, lo: nat)
    requires Ordered(bs) && InBounds(x, bs) && lo <= |x|
    requires |bs| > 0 ==> lo <= bs[0].a
    ensures IsSubseq(Flatten(Chunks(x, bs)), x[lo..])
  {
    if |bs| == 0 {
      assert Flatten(Chunks(x, bs)) == [];
    } else {
      var b := bs[0];
      var e := b.a + b.size;
      OrderedTail(bs);
      InBoundsTail(x, bs);
      ChunksSubseq(x, bs[1..], e);
      var rest := Flatten(Chunks(x, bs[1..]));
      ChunksCons(x, b, bs[1..]);
      assert [b] + bs[1..] == bs;
      SubseqHead(x, lo, b.a, e, rest);
    }
  }

  /** Matching blocks cover equal text in both sequences. */
  lemma ChunksAgree<T>(x: seq<T>, y: seq<T>, bs: seq<Block>, alo: nat, ahi: nat, blo: nat, bhi: nat)
    requires ValidBlocks(x, y, bs, alo, ahi, blo, bhi)
    ensures InBounds(x, bs) && InBounds(y, Swap(bs)) && Ordered(Swap(bs))
    ensures Chunks(x, bs) == Chunks(y, Swap(bs))
  {
    SwapValid(x, y, bs, alo, ahi, blo, bhi);
    ChunksEqual(x, y, bs, alo, ahi, blo, bhi);
  }

  lemma SwapValid<T>(x: seq<T>, y: seq<T>, bs: seq<Block>, alo: nat, ahi: nat, blo: nat, bhi: nat)
    requires ValidBlocks(x, y, bs, alo, ahi, blo, bhi)
    ensures InBounds(x, bs) && InBounds(y, Swap(bs)) && Ordered(Swap(bs))
  {
    ValidInBounds(x, y, bs, alo, ahi, blo, bhi);
    var r := Swap(bs);
    forall k | 0 <= k < |r|
      ensures r[k].a + r[k].size <= |y|
    {
      assert IsMatch(x, y, bs[k], alo, ahi, blo, bhi);
    }
  }

  lemma {:induction false} ChunksEqual<T>(x: seq<T>, y: seq<T>, bs: seq<Block>, alo: nat, ahi: nat, blo: nat, bhi: nat)
    requires ValidBlocks(x, y, bs, alo, ahi, blo, bhi)
    requires InBounds(x, bs) && InBounds(y, Swap(bs))
    ensures Chunks(x, bs) == Chunks(y, Swap(bs))
  {
    if |bs| > 0 {
      ValidTail(x, y, bs, alo, ahi, blo, bhi);
      InBoundsTail(x, bs);
      var sw := Swap(bs);
      assert sw == [Block(bs[0].b, bs[0].a, bs[0].size)] + Swap(bs[1..]);
      assert sw[1..] == Swap(bs[1..]);
      InBoundsTail(y, sw);
      ChunksEqual(x, y, bs[1..], alo, ahi, blo, bhi);
    }
  }

  /** The matched text is a common subsequence of both sequences, so it is
      no longer than either. */
  lemma CommonSubsequence<T>(x: seq<T>, y: seq<T>)
    ensures var bs := MatchingBlocks(x, y);
      InBounds(x, bs)
      && IsSubseq(Flatten(Chunks(x, bs)), x) && IsSubseq(Flatten(Chunks(x, bs)), y)
      && Matched(bs) <= |x| && Matched(bs) <= |y|
  {
    var bs := MatchingBlocks(x, y);
    ChunksAgree(x, y, bs, 0, |x|, 0, |y|);
    ChunksSubseq(x, bs, 0);
    ChunksSubseq(y, Swap(bs), 0);
    assert x[0..] == x && y[0..] == y;
    var t := Flatten(Chunks(x, bs));
    SubseqLength(t, x);
    SubseqLength(t, y);
    ChunksLength(x, bs);
  }

  lemma RatioBound(m: nat, total: nat)
    requires 2 * m <= total && total > 0
    ensures 0.0 <= (2 * m) as real / total as real <= 1.0
  {
  }

  lemma MatchedBound<T>(x: seq<T>, y: seq<T>)
    ensures Matched(MatchingBlocks(x, y)) <= |x| && Matched(MatchingBlocks(x, y)) <= |y|
  {
    CommonSubsequence(x, y);
  }

  /** `ratio()`: twice the matched count over the total length, and 1.0 when
      both sequences are empty. */
  function Ratio<T(==)>(x: seq<T>, y: seq<T>): (r: real)
    ensures 0.0 <= r <= 1.0
  {
    var total := |x| + |y|;
    if total == 0 then 1.0
    else
      var m := Matched(MatchingBlocks(x, y));
      MatchedBound(x, y);
      RatioBound(m, total);
      (2 * m) as real / total as real
  }

  lemma {:induction false} RunLengthSelf<T>(x: seq<T>, i: nat)
    requires i <= |x|
    ensures RunLength(x, x, i, i, |x|, |x|) == |x| - i
    decreases |x| - i
  {
    if i < |x| {
      RunLengthSelf(x, i + 1);
    }
  }

  /** The longest block of a sequence against itself is all of it. */
  lemma LongestMatchSelf<T>(x: seq<T>)
    requires |x| > 0
    ensures LongestMatch(x, x, 0, |x|, 0, |x|) == Block(0, 0, |x|)
  {
    RunLengthSelf(x, 0);
    LongestMatchMaximal(x, x, 0, |x|, 0, |x|);
  }

  /** An empty window has no blocks. */
  lemma EmptyWindow<T>(x: seq<T>, y: seq<T>, a: nat, b: nat)
    requires a <= |x| && b <= |y|
    ensures MatchingBlocksIn(x, y, a, a, b, b) == []
  {
    assert LongestMatch(x, y, a, a, b, b).size == 0;
  }

  /** A sequence matches itself in one block covering all of it. */
  lemma MatchingBlocksSelf<T>(x: seq<T>)
    ensures MatchingBlocks(x, x) == if |x| == 0 then [] else [Block(0, 0, |x|)]
  {
    var n := |x|;
    if n > 0 {
      var m := Block(0, 0, n);
      LongestMatchSelf(x);
      EmptyWindow(x, x, 0, 0);
      EmptyWindow(x, x, n, n);
      assert MatchingBlocksIn(x, x, 0, n, 0, n) == [] + [m] + [];
      assert CollapseFrom(Block(0, 0, 0), [m]) == CollapseFrom(m, []) == [m];
    } else {
      EmptyWindow(x, x, 0, 0);
    }
  }

  lemma RatioSelf<T>(x: seq<T>)
    ensures Ratio(x, x) == 1.0
  {
    if |x| > 0 {
      MatchingBlocksSelf(x);
      var bs := MatchingBlocks(x, x);
      assert bs == [Block(0, 0, |x|)] && bs[1..] == [];
      var m := Matched(bs);
      assert m == |x| + Matched([]);
      assert Ratio(x, x) == (2 * m) as real / (|x| + |x|) as real;
      DoubleOverSum(m);
    }
  }

  lemma DoubleOverSum(m: nat)
    requires m > 0
    ensures (2 * m) as real / (m + m) as real == 1.0
  {
    assert (2 * m) as real == (m + m) as real;
  }
}
