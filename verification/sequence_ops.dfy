/** The sequential helpers that the parallel primitives are built from:
    counting true flags, summing, the exclusive prefix scan and the
    decomposition of an index range into fixed-size blocks.  The module that
    holds them in the repository is not part of this model, so each is given
    here by the contract its callers rely on. */
module SequenceOps {

  /** Number of `true` entries (`sum_bool_serial`). */
  function CountTrue(flags: seq<bool>): nat
    decreases |flags|
  {
    if |flags| == 0 then 0
    else CountTrue(flags[..|flags| - 1]) + (if flags[|flags| - 1] then 1 else 0)
  }

  /** Sum of a sequence of counts. */
  function Sum(xs: seq<nat>): nat
    decreases |xs|
  {
    if |xs| == 0 then 0 else Sum(xs[..|xs| - 1]) + xs[|xs| - 1]
  }

  lemma {:induction false} CountTrueAppend(a: seq<bool>, b: seq<bool>)
    ensures CountTrue(a + b) == CountTrue(a) + CountTrue(b)
    decreases |b|
  {
    if |b| == 0 {
      assert a + b == a;
    } else {
      assert (a + b)[..|a + b| - 1] == a + b[..|b| - 1];
      CountTrueAppend(a, b[..|b| - 1]);
    }
  }

  lemma {:induction false} CountTrueBound(flags: seq<bool>)
    ensures CountTrue(flags) <= |flags|
    decreases |flags|
  {
    if |flags| > 0 {
      CountTrueBound(flags[..|flags| - 1]);
    }
  }

  lemma {:induction false} SumAppend(a: seq<nat>, b: seq<nat>)
    ensures Sum(a + b) == Sum(a) + Sum(b)
    decreases |b|
  {
    if |b| == 0 {
      assert a + b == a;
    } else {
      assert (a + b)[..|a + b| - 1] == a + b[..|b| - 1];
      SumAppend(a, b[..|b| - 1]);
    }
  }

  lemma SumPrefixStep(xs: seq<nat>, i: nat)
    requires i < |xs|
    ensures Sum(xs[..i + 1]) == Sum(xs[..i]) + xs[i]
  {
    assert xs[..i + 1][..i] == xs[..i];
  }

  /** The exclusive scan under addition (`scan_inplace(.., false, +)`):
      entry `i` of the offsets is the sum of the entries before `i`, and the
      returned total is the sum of all entries. */
  method ScanInplace(xs: seq<nat>) returns (offsets: seq<nat>, total: nat)
    ensures |offsets| == |xs|
    ensures forall i | 0 <= i < |xs| :: offsets[i] == Sum(xs[..i])
    ensures total == Sum(xs)
    ensures forall i, j | 0 <= i <= j < |xs| :: offsets[i] <= offsets[j] <= total
  {
    offsets := [];
    total := 0;
    for i := 0 to |xs|
      invariant |offsets| == i
      invariant forall k | 0 <= k < i :: offsets[k] == Sum(xs[..k])
      invariant forall k, l | 0 <= k <= l < i :: offsets[k] <= offsets[l] <= total
      invariant total == Sum(xs[..i])
    {
      SumPrefixStep(xs, i);
      offsets := offsets + [total];
      total := total + xs[i];
    }
    assert xs[..|xs|] == xs;
  }

  /** Number of blocks of size `b` needed to cover `n` indices (`num_blocks`),
      i.e. the ceiling of `n / b`. */
  function NumBlocks(n: nat, b: nat): (r: nat)
    requires b >= 1
    ensures r * b >= n
    ensures r > 0 ==> (r - 1) * b < n
  {
    (n + b - 1) / b
  }

  /** Start of block `i` of size `b` in a range of length `n`, clipped to `n`;
      block `i` is the half-open range [BlockStart(i), BlockStart(i + 1)). */
  function BlockStart(i: nat, b: nat, n: nat): nat
  {
    if i * b <= n then i * b else n
  }

  lemma BlockStartMonotone(i: nat, b: nat, n: nat)
    ensures BlockStart(i, b, n) <= BlockStart(i + 1, b, n) <= n
    ensures BlockStart(i + 1, b, n) - BlockStart(i, b, n) <= b
  {
    assert (i + 1) * b == i * b + b;
  }

  lemma BlockStartLast(n: nat, b: nat)
    requires b >= 1
    ensures BlockStart(NumBlocks(n, b), b, n) == n
    ensures NumBlocks(n, b) > 0 ==> BlockStart(NumBlocks(n, b) - 1, b, n) < n
  {
  }

  /** Every block before the last starts at `i * b`, inside the range. */
  lemma BlockStartInRange(i: nat, b: nat, n: nat)
    requires b >= 1 && i < NumBlocks(n, b)
    ensures i * b < n && BlockStart(i, b, n) == i * b
  {
    var r := NumBlocks(n, b);
    MulMonotone(i, r - 1, b);
  }

  lemma MulMonotone(x: nat, y: nat, b: nat)
    requires x <= y
    ensures x * b <= y * b
  {
  }

  /** The `i`-th chunk of `xs` for chunk size `b` (`par_chunks(b)`). */
  function Chunk<T>(xs: seq<T>, b: nat, i: nat): seq<T>
  {
    BlockStartMonotone(i, b, |xs|);
    xs[BlockStart(i, b, |xs|)..BlockStart(i + 1, b, |xs|)]
  }

  /** The per-block true counts that the blocked primitives scan. */
  function BlockCounts(flags: seq<bool>, b: nat): (counts: seq<nat>)
    requires b >= 1
    ensures |counts| == NumBlocks(|flags|, b)
    ensures forall i | 0 <= i < |counts| :: counts[i] == CountTrue(Chunk(flags, b, i))
  {
    seq(NumBlocks(|flags|, b), i requires 0 <= i => CountTrue(Chunk(flags, b, i)))
  }

  /** The first `i + 1` blocks are the first `i` blocks followed by chunk `i`. */
  lemma ChunkSplit<T>(xs: seq<T>, b: nat, i: nat)
    ensures BlockStart(i, b, |xs|) <= BlockStart(i + 1, b, |xs|) <= |xs|
    ensures xs[..BlockStart(i + 1, b, |xs|)] == xs[..BlockStart(i, b, |xs|)] + Chunk(xs, b, i)
  {
    BlockStartMonotone(i, b, |xs|);
  }

  /** The exclusive scan of the block counts gives each block its output
      start: block `i` starts after all true flags before the block. */
  lemma {:induction false} BlockCountsScan(flags: seq<bool>, b: nat, i: nat)
    requires b >= 1 && i <= NumBlocks(|flags|, b)
    ensures Sum(BlockCounts(flags, b)[..i]) == CountTrue(flags[..BlockStart(i, b, |flags|)])
    decreases i
  {
    var counts := BlockCounts(flags, b);
    if i == 0 {
      assert flags[..BlockStart(0, b, |flags|)] == [];
    } else {
      BlockCountsScan(flags, b, i - 1);
      SumPrefixStep(counts, i - 1);
      ChunkSplit(flags, b, i - 1);
      CountTrueAppend(flags[..BlockStart(i - 1, b, |flags|)], Chunk(flags, b, i - 1));
    }
  }

  /** The total of the block counts is the number of true flags. */
  lemma BlockCountsTotal(flags: seq<bool>, b: nat)
    requires b >= 1
    ensures Sum(BlockCounts(flags, b)) == CountTrue(flags)
  {
    var counts := BlockCounts(flags, b);
    BlockCountsScan(flags, b, |counts|);
    BlockStartLast(|flags|, b);
    assert counts[..|counts|] == counts;
    assert flags[..|flags|] == flags;
  }
}
