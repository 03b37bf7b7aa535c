/** Tokenisation (`tokens`, `map_tokens`) from parlay's primitives: the
    maximal runs of non-separator elements are found with a scan of
    (count, last start) pairs under a right-biased combine. */
module Tokens {
  import opened SequenceOps

  /** The scan value (`Ipair`): how many token starts have been seen and the
      index of the most recent one. */
  datatype IPair = IPair(count: int, last: int)

  /** The scan identity `(0, 0)`, also the value of a non-start position. */
  const Zero := IPair(0, 0)

  /** The combine `g`: a right operand that holds no start leaves the left
      operand unchanged; otherwise the counts add up and the right operand's
      start index wins. */
  function G(a: IPair, b: IPair): IPair {
    if b.count == 0 then a else IPair(a.count + b.count, b.last)
  }

  /** `g` is associative on pairs whose counts are not negative. */
  lemma GAssociative(a: IPair, b: IPair, c: IPair)
    requires a.count >= 0 && b.count >= 0 && c.count >= 0
    ensures G(G(a, b), c) == G(a, G(b, c))
  {
  }

  /** Negative counts break associativity, so the restriction above is
      needed. */
  lemma GNotAssociativeWithNegativeCounts()
    ensures G(G(Zero, IPair(1, 5)), IPair(-1, 7)) != G(Zero, G(IPair(1, 5), IPair(-1, 7)))
  {
  }

  /** `(0, 0)` is a right identity for every pair and a left identity for
      the values the scan can reach: pairs with a positive count and
      `(0, 0)` itself. */
  lemma GIdentity(a: IPair)
    ensures G(a, Zero) == a
    ensures a.count > 0 || a == Zero ==> G(Zero, a) == a
  {
  }

  /** The left-to-right combination of a sequence of pairs, starting from
      the identity. */
  function FoldG(xs: seq<IPair>): IPair
    decreases |xs|
  {
    if |xs| == 0 then Zero else G(FoldG(xs[..|xs| - 1]), xs[|xs| - 1])
  }

  ghost predicate NonNegative(xs: seq<IPair>) {
    forall i | 0 <= i < |xs| :: xs[i].count >= 0
  }

  lemma {:induction false} FoldGNonNegative(xs: seq<IPair>)
    requires NonNegative(xs)
    ensures FoldG(xs).count >= 0
    decreases |xs|
  {
    if |xs| > 0 {
      FoldGNonNegative(xs[..|xs| - 1]);
    }
  }

  /** Folding a concatenation is combining the folds of the parts; this is
      what makes a blocked scan with `g` correct. */
  lemma {:induction false} FoldGAppend(a: seq<IPair>, c: seq<IPair>)
    requires NonNegative(a) && NonNegative(c)
    ensures FoldG(a + c) == G(FoldG(a), FoldG(c))
    decreases |c|
  {
    if |c| == 0 {
      assert a + c == a;
    } else {
      var c' := c[..|c| - 1];
      assert (a + c)[..|a + c| - 1] == a + c';
      FoldGAppend(a, c');
      FoldGNonNegative(a);
      FoldGNonNegative(c');
      GAssociative(FoldG(a), FoldG(c'), c[|c| - 1]);
    }
  }

  /** `block_delayed_scan` with `g` and identity `(0, 0)`, given by its
      contract: entry `i` of the offsets combines the values before `i`, and
      the total combines all of them. */
  method BlockDelayedScan(xs: seq<IPair>) returns (offsets: seq<IPair>, total: IPair)
    ensures |offsets| == |xs|
    ensures forall i | 0 <= i < |xs| :: offsets[i] == FoldG(xs[..i])
    ensures total == FoldG(xs)
  {
    offsets := [];
    total := Zero;
    for i := 0 to |xs|
      invariant |offsets| == i
      invariant forall k | 0 <= k < i :: offsets[k] == FoldG(xs[..k])
      invariant total == FoldG(xs[..i])
    {
      assert xs[..i + 1][..i] == xs[..i];
      offsets := offsets + [total];
      total := G(total, xs[i]);
    }
    assert xs[..|xs|] == xs;
  }

  /** The block totals of a blocked scan with block size `b`. */
  function BlockTotals(xs: seq<IPair>, b: nat): (r: seq<IPair>)
    requires b >= 1
    ensures |r| == NumBlocks(|xs|, b)
  {
    seq(NumBlocks(|xs|, b), q requires 0 <= q => FoldG(Chunk(xs, b, q)))
  }

  /** The blocked form of the scan: block `q`'s offset is the fold of the
      totals of the blocks before it, combined with the fold of the block's
      own values up to the position. */
  function BlockedScan(xs: seq<IPair>, b: nat): (r: seq<IPair>)
    requires b >= 1
    ensures |r| == |xs|
  {
    seq(|xs|, i requires 0 <= i < |xs| =>
      BlockedScanAt(xs, b, i))
  }

  function BlockedScanAt(xs: seq<IPair>, b: nat, i: nat): IPair
    requires b >= 1 && i < |xs|
  {
    var q := i / b;
    BlockIndex(i, b, |xs|);
    G(FoldG(BlockTotals(xs, b)[..q]), FoldG(xs[q * b..i]))
  }

  /** Position `i` lies in block `i / b`, which starts at `(i / b) * b`. */
  lemma BlockIndex(i: nat, b: nat, n: nat)
    requires b >= 1 && i < n
    ensures i / b < NumBlocks(n, b)
    ensures (i / b) * b <= i && BlockStart(i / b, b, n) == (i / b) * b
  {
    var q := i / b;
    assert q * b <= i;
    if q >= NumBlocks(n, b) {
      MulMonotone(NumBlocks(n, b), q, b);
    }
  }

  /** The fold of the first `q` block totals is the fold of everything
      before block `q`. */
  lemma {:induction false} FoldBlockTotals(xs: seq<IPair>, b: nat, q: nat)
    requires b >= 1 && NonNegative(xs) && q <= NumBlocks(|xs|, b)
    ensures FoldG(BlockTotals(xs, b)[..q]) == FoldG(xs[..BlockStart(q, b, |xs|)])
    decreases q
  {
    var totals := BlockTotals(xs, b);
    if q == 0 {
      assert xs[..BlockStart(0, b, |xs|)] == [];
    } else {
      FoldBlockTotals(xs, b, q - 1);
      assert totals[..q][..q - 1] == totals[..q - 1];
      ChunkSplit(xs, b, q - 1);
      FoldGAppend(xs[..BlockStart(q - 1, b, |xs|)], Chunk(xs, b, q - 1));
    }
  }

  /** The blocked scan equals the serial scan for every block size. */
  lemma BlockedScanAgrees(xs: seq<IPair>, b: nat)
    requires b >= 1 && NonNegative(xs)
    ensures forall i | 0 <= i < |xs| :: BlockedScan(xs, b)[i] == FoldG(xs[..i])
  {
    forall i | 0 <= i < |xs|
      ensures BlockedScan(xs, b)[i] == FoldG(xs[..i])
    {
      BlockedScanAtAgrees(xs, b, i);
    }
  }

  lemma BlockedScanAtAgrees(xs: seq<IPair>, b: nat, i: nat)
    requires b >= 1 && NonNegative(xs) && i < |xs|
    ensures BlockedScanAt(xs, b, i) == FoldG(xs[..i])
  {
    var q := i / b;
    BlockIndex(i, b, |xs|);
    FoldBlockTotals(xs, b, q);
    assert xs[..i] == xs[..q * b] + xs[q * b..i];
    FoldGAppend(xs[..q * b], xs[q * b..i]);
  }

  // ---------------------------------------------------------------------
  // Token boundaries

  /** `is_start`: position `i` begins a token. */
  predicate IsStart<T>(r: seq<T>, isSpace: T -> bool, i: nat)
    requires i <= |r|
  {
    (i == 0 || isSpace(r[i - 1])) && i != |r| && !isSpace(r[i])
  }

  /** `is_end`: position `i` is one past the last element of a token. */
  predicate IsEnd<T>(r: seq<T>, isSpace: T -> bool, i: nat)
    requires i <= |r|
  {
    (i == |r| || isSpace(r[i])) && i != 0 && !isSpace(r[i - 1])
  }

  /** The per-position scan values: `(1, i)` at a start, `(0, 0)` elsewhere,
      for the positions 0 ..= n. */
  function StartPairs<T>(r: seq<T>, isSpace: T -> bool): (ps: seq<IPair>)
    ensures |ps| == |r| + 1
    ensures forall i | 0 <= i <= |r| :: ps[i] == (if IsStart(r, isSpace, i) then IPair(1, i) else Zero)
  {
    seq(|r| + 1, i requires 0 <= i <= |r| => if IsStart(r, isSpace, i) then IPair(1, i) else Zero)
  }

  /** Number of token starts below position `p`. */
  function CountStarts<T>(r: seq<T>, isSpace: T -> bool, p: nat): nat
    requires p <= |r| + 1
  {
    if p == 0 then 0
    else CountStarts(r, isSpace, p - 1) + (if IsStart(r, isSpace, p - 1) then 1 else 0)
  }

  /** The last token start below position `p`, or 0 when there is none. */
  function LastStart<T>(r: seq<T>, isSpace: T -> bool, p: nat): nat
    requires p <= |r| + 1
  {
    if p == 0 then 0
    else if IsStart(r, isSpace, p - 1) then p - 1
    else LastStart(r, isSpace, p - 1)
  }

  /** The scan of the start pairs counts the starts before each position and
      carries the last of them forward. */
  lemma {:induction false} ScanOfStarts<T>(r: seq<T>, isSpace: T -> bool, p: nat)
    requires p <= |r| + 1
    ensures FoldG(StartPairs(r, isSpace)[..p]) == IPair(CountStarts(r, isSpace, p), LastStart(r, isSpace, p))
    decreases p
  {
    if p > 0 {
      var ps := StartPairs(r, isSpace);
      assert ps[..p][..p - 1] == ps[..p - 1];
      ScanOfStarts(r, isSpace, p - 1);
    }
  }

  /** The token ends at positions `i ..= n`, increasing (the filter over
      `is_end`). */
  function EndsFrom<T>(r: seq<T>, isSpace: T -> bool, i: nat): seq<nat>
    requires i <= |r| + 1
    decreases |r| + 1 - i
  {
    if i == |r| + 1 then []
    else (if IsEnd(r, isSpace, i) then [i] else []) + EndsFrom(r, isSpace, i + 1)
  }

  // ---------------------------------------------------------------------
  // The reference meaning: maximal runs of non-separators

  /** The first position at or after `i` that holds a separator, or `n`. */
  function RunEnd<T>(r: seq<T>, isSpace: T -> bool, i: nat): (e: nat)
    requires i <= |r|
    ensures i <= e <= |r|
    ensures e == |r| || isSpace(r[e])
    ensures forall j | i <= j < e :: !isSpace(r[j])
    decreases |r| - i
  {
    if i == |r| || isSpace(r[i]) then i else RunEnd(r, isSpace, i + 1)
  }

  /** The maximal runs of non-separators that start at or after `i`, as
      half-open ranges, left to right. */
  function RunsFrom<T>(r: seq<T>, isSpace: T -> bool, i: nat): seq<(nat, nat)>
    requires i <= |r|
    decreases |r| - i
  {
    if i == |r| then []
    else if isSpace(r[i]) then RunsFrom(r, isSpace, i + 1)
    else [(i, RunEnd(r, isSpace, i))] + RunsFrom(r, isSpace, RunEnd(r, isSpace, i))
  }

  /** Every run found from `i` is a non-empty range inside `[i, n]`. */
  lemma {:induction false} RunsInRange<T>(r: seq<T>, isSpace: T -> bool, i: nat)
    requires i <= |r|
    ensures forall k | 0 <= k < |RunsFrom(r, isSpace, i)| ::
              i <= RunsFrom(r, isSpace, i)[k].0 < RunsFrom(r, isSpace, i)[k].1 <= |r|
    decreases |r| - i
  {
    if i < |r| {
      if isSpace(r[i]) {
        RunsInRange(r, isSpace, i + 1);
      } else {
        RunsInRange(r, isSpace, RunEnd(r, isSpace, i));
      }
    }
  }

  /** The token ranges of `r`. */
  function Runs<T>(r: seq<T>, isSpace: T -> bool): seq<(nat, nat)>
  {
    RunsFrom(r, isSpace, 0)
  }

  /** [s, e) is a token: non-empty, free of separators, and maximal. */
  ghost predicate IsToken<T>(r: seq<T>, isSpace: T -> bool, s: nat, e: nat) {
    && s < e <= |r|
    && (s == 0 || isSpace(r[s - 1]))
    && (e == |r| || isSpace(r[e]))
    && forall j | s <= j < e :: !isSpace(r[j])
  }

  /** Where a run ends depends only on where the separators are. */
  lemma {:induction false} RunEndSamePattern<T, U>(r: seq<T>, p: T -> bool, q: seq<U>, pq: U -> bool, i: nat)
    requires |r| == |q| && i <= |r|
    requires forall j | 0 <= j < |r| :: p(r[j]) == pq(q[j])
    ensures RunEnd(r, p, i) == RunEnd(q, pq, i)
    decreases |r| - i
  {
    if i < |r| && !p(r[i]) {
      RunEndSamePattern(r, p, q, pq, i + 1);
    }
  }

  /** Two sequences with their separators at the same positions have the
      same runs. */
  lemma {:induction false} RunsFromSamePattern<T, U>(r: seq<T>, p: T -> bool, q: seq<U>, pq: U -> bool, i: nat)
    requires |r| == |q| && i <= |r|
    requires forall j | 0 <= j < |r| :: p(r[j]) == pq(q[j])
    ensures RunsFrom(r, p, i) == RunsFrom(q, pq, i)
    decreases |r| - i
  {
    if i < |r| {
      if p(r[i]) {
        RunsFromSamePattern(r, p, q, pq, i + 1);
      } else {
        RunEndSamePattern(r, p, q, pq, i);
        RunsFromSamePattern(r, p, q, pq, RunEnd(r, p, i));
      }
    }
  }

  /** The token slices of `r`, left to right. */
  function TokenSlices<T>(r: seq<T>, isSpace: T -> bool): (toks: seq<seq<T>>)
    ensures |toks| == |Runs(r, isSpace)|
  {
    var runs := Runs(r, isSpace);
    RunsInRange(r, isSpace, 0);
    seq(|runs|, k requires 0 <= k < |runs| => r[runs[k].0..runs[k].1])
  }

  /** The runs found from a token boundary `i` are exactly the tokens that
      start at or after `i`, in increasing order. */
  lemma {:induction false} RunsFromAreTokens<T>(r: seq<T>, isSpace: T -> bool, i: nat)
    requires i <= |r| && (i == 0 || isSpace(r[i - 1]))
    ensures forall k | 0 <= k < |RunsFrom(r, isSpace, i)| ::
              IsToken(r, isSpace, RunsFrom(r, isSpace, i)[k].0, RunsFrom(r, isSpace, i)[k].1)
    ensures forall k, l | 0 <= k < l < |RunsFrom(r, isSpace, i)| ::
              RunsFrom(r, isSpace, i)[k].1 < RunsFrom(r, isSpace, i)[l].0
    ensures forall s: nat, e: nat | i <= s && IsToken(r, isSpace, s, e) :: (s, e) in RunsFrom(r, isSpace, i)
    decreases |r| - i
  {
    var runs := RunsFrom(r, isSpace, i);
    if i == |r| {
    } else if isSpace(r[i]) {
      RunsFromAreTokens(r, isSpace, i + 1);
    } else {
      var e := RunEnd(r, isSpace, i);
      var rest := RunsFrom(r, isSpace, e);
      if e < |r| {
        assert rest == RunsFrom(r, isSpace, e + 1);
        RunsFromAreTokens(r, isSpace, e + 1);
        RunsInRange(r, isSpace, e + 1);
      }
      forall s: nat, e': nat | i <= s && IsToken(r, isSpace, s, e')
        ensures (s, e') in runs
      {
        if s == i {
          assert e' == e by {
            if e' < e { assert false; }
            if e < e' { assert false; }
          }
        } else {
          assert s > e by {
            if s <= e { assert false; }
          }
          assert (s, e') in rest;
        }
      }
    }
  }

  /** The runs are the tokens of `r`: each is maximal, they are disjoint and
      increasing, and every token appears among them. */
  lemma RunsAreTokens<T>(r: seq<T>, isSpace: T -> bool)
    ensures forall k | 0 <= k < |Runs(r, isSpace)| ::
              IsToken(r, isSpace, Runs(r, isSpace)[k].0, Runs(r, isSpace)[k].1)
    ensures forall k, l | 0 <= k < l < |Runs(r, isSpace)| :: Runs(r, isSpace)[k].1 < Runs(r, isSpace)[l].0
    ensures forall s: nat, e: nat | IsToken(r, isSpace, s, e) :: (s, e) in Runs(r, isSpace)
  {
    RunsFromAreTokens(r, isSpace, 0);
  }

  // ---------------------------------------------------------------------
  // The scan-based computation agrees with the runs

  lemma {:induction false} NoEndsInside<T>(r: seq<T>, isSpace: T -> bool, i: nat, j: nat)
    requires i <= j <= |r| + 1
    requires forall p | i <= p < j :: !IsEnd(r, isSpace, p)
    ensures EndsFrom(r, isSpace, i) == EndsFrom(r, isSpace, j)
    decreases j - i
  {
    if i < j {
      NoEndsInside(r, isSpace, i + 1, j);
    }
  }

  /** Inside the run that starts at `i`, the only start is `i` itself. */
  lemma {:induction false} StartsInRun<T>(r: seq<T>, isSpace: T -> bool, i: nat, p: nat)
    requires i < |r| && IsStart(r, isSpace, i)
    requires i < p <= RunEnd(r, isSpace, i)
    ensures LastStart(r, isSpace, p) == i
    ensures CountStarts(r, isSpace, p) == CountStarts(r, isSpace, i) + 1
    decreases p
  {
    if p > i + 1 {
      StartsInRun(r, isSpace, i, p - 1);
      assert !isSpace(r[p - 2]);
    }
  }

  /** The end positions of a list of ranges. */
  function Closes(runs: seq<(nat, nat)>): seq<nat>
  {
    if |runs| == 0 then [] else [runs[0].1] + Closes(runs[1..])
  }

  lemma {:induction false} ClosesAt(runs: seq<(nat, nat)>)
    ensures |Closes(runs)| == |runs|
    ensures forall k | 0 <= k < |runs| :: Closes(runs)[k] == runs[k].1
  {
    if |runs| > 0 {
      ClosesAt(runs[1..]);
    }
  }

  /** From a token boundary `i`, the ends found by the filter are exactly the
      ends of the runs. */
  lemma {:induction false} EndsMatchRuns<T>(r: seq<T>, isSpace: T -> bool, i: nat)
    requires i <= |r| && (i == 0 || isSpace(r[i - 1]))
    ensures EndsFrom(r, isSpace, i) == Closes(RunsFrom(r, isSpace, i))
    decreases |r| - i, 1
  {
    var n := |r|;
    if i == n {
      assert !IsEnd(r, isSpace, n);
      assert EndsFrom(r, isSpace, n + 1) == [];
      assert EndsFrom(r, isSpace, i) == [];
    } else if isSpace(r[i]) {
      assert !IsEnd(r, isSpace, i);
      assert EndsFrom(r, isSpace, i) == EndsFrom(r, isSpace, i + 1);
      EndsMatchRuns(r, isSpace, i + 1);
    } else {
      EndsMatchRunsAtStart(r, isSpace, i);
    }
  }

  /** The inductive step of `EndsMatchRuns` at a token start. */
  lemma {:induction false} EndsMatchRunsAtStart<T>(r: seq<T>, isSpace: T -> bool, i: nat)
    requires i < |r| && (i == 0 || isSpace(r[i - 1])) && !isSpace(r[i])
    ensures EndsFrom(r, isSpace, i) == Closes(RunsFrom(r, isSpace, i))
    decreases |r| - i, 0
  {
    var e := RunEnd(r, isSpace, i);
    var runs := RunsFrom(r, isSpace, i);
    RunsFromAtStart(r, isSpace, i);
    EndsOfRun(r, isSpace, i);
    assert Closes(runs) == [e] + Closes(runs[1..]);
    if e < |r| {
      EndsMatchRuns(r, isSpace, e + 1);
    } else {
      assert Closes(runs[1..]) == [];
      assert EndsFrom(r, isSpace, i) == [e] + [];
    }
  }

  /** Unfolding the runs at a token start: its run, then the runs after the
      separator that ends it. */
  lemma RunsFromAtStart<T>(r: seq<T>, isSpace: T -> bool, i: nat)
    requires i < |r| && !isSpace(r[i])
    ensures |RunsFrom(r, isSpace, i)| > 0 && RunsFrom(r, isSpace, i)[0] == (i, RunEnd(r, isSpace, i))
    ensures RunEnd(r, isSpace, i) < |r| ==> RunsFrom(r, isSpace, i)[1..] == RunsFrom(r, isSpace, RunEnd(r, isSpace, i) + 1)
    ensures RunEnd(r, isSpace, i) == |r| ==> RunsFrom(r, isSpace, i)[1..] == []
  {
    var e := RunEnd(r, isSpace, i);
    assert RunsFrom(r, isSpace, i)[1..] == RunsFrom(r, isSpace, e);
    if e < |r| {
      assert RunsFrom(r, isSpace, e) == RunsFrom(r, isSpace, e + 1);
    } else {
      assert RunsFrom(r, isSpace, e) == [];
    }
  }

  /** The end of a token is the run end of its start. */
  lemma TokenEnd<T>(r: seq<T>, isSpace: T -> bool, s: nat, e: nat)
    requires IsToken(r, isSpace, s, e)
    ensures IsStart(r, isSpace, s) && RunEnd(r, isSpace, s) == e
  {
    var e' := RunEnd(r, isSpace, s);
    if e' < e { assert false; }
    if e < e' { assert false; }
  }

  /** At the end of every run, the last start carried by the scan is the
      run's own start. */
  lemma CarriedStarts<T>(r: seq<T>, isSpace: T -> bool)
    ensures forall k | 0 <= k < |Runs(r, isSpace)| ::
              Runs(r, isSpace)[k].1 <= |r| && LastStart(r, isSpace, Runs(r, isSpace)[k].1) == Runs(r, isSpace)[k].0
  {
    var runs := Runs(r, isSpace);
    RunsAreTokens(r, isSpace);
    forall k | 0 <= k < |runs|
      ensures LastStart(r, isSpace, runs[k].1) == runs[k].0
    {
      TokenEnd(r, isSpace, runs[k].0, runs[k].1);
      StartsInRun(r, isSpace, runs[k].0, runs[k].1);
    }
  }

  /** From a token boundary `i`, the starts still to come number as many as
      the runs. */
  lemma {:induction false} StartsMatchRuns<T>(r: seq<T>, isSpace: T -> bool, i: nat)
    requires i <= |r| && (i == 0 || isSpace(r[i - 1]))
    ensures CountStarts(r, isSpace, |r| + 1) == CountStarts(r, isSpace, i) + |RunsFrom(r, isSpace, i)|
    decreases |r| - i
  {
    var n := |r|;
    if i == n {
      assert !IsStart(r, isSpace, n);
    } else if isSpace(r[i]) {
      assert !IsStart(r, isSpace, i);
      StartsMatchRuns(r, isSpace, i + 1);
    } else {
      var e := RunEnd(r, isSpace, i);
      assert |RunsFrom(r, isSpace, i)| == 1 + |RunsFrom(r, isSpace, e)|;
      StartsInRun(r, isSpace, i, e);
      if e < n {
        assert !IsStart(r, isSpace, e);
        assert RunsFrom(r, isSpace, e) == RunsFrom(r, isSpace, e + 1);
        StartsMatchRuns(r, isSpace, e + 1);
      } else {
        assert !IsStart(r, isSpace, n);
        assert RunsFrom(r, isSpace, e) == [];
      }
    }
  }

  /** The run that starts at boundary `i` contributes exactly its end. */
  lemma EndsOfRun<T>(r: seq<T>, isSpace: T -> bool, i: nat)
    requires i < |r| && (i == 0 || isSpace(r[i - 1])) && !isSpace(r[i])
    ensures RunEnd(r, isSpace, i) == |r| ==> EndsFrom(r, isSpace, i) == [|r|]
    ensures RunEnd(r, isSpace, i) < |r| ==>
              EndsFrom(r, isSpace, i) == [RunEnd(r, isSpace, i)] + EndsFrom(r, isSpace, RunEnd(r, isSpace, i) + 1)
  {
    var e := RunEnd(r, isSpace, i);
    forall p | i <= p < e
      ensures !IsEnd(r, isSpace, p)
    {
      if p > i { assert !isSpace(r[p]); }
    }
    NoEndsInside(r, isSpace, i, e);
    assert IsEnd(r, isSpace, e);
  }

    /** The positions where a token ends, in increasing order (the filter of
      `map_tokens` over `is_end`). */
  method EndIndices<T>(r: seq<T>, isSpace: T -> bool) returns (ends: seq<nat>)
    ensures ends == EndsFrom(r, isSpace, 0)
  {
    ends := [];
    for index := 0 to |r| + 1
      invariant ends + EndsFrom(r, isSpace, index) == EndsFrom(r, isSpace, 0)
    {
      ghost var rest := EndsFrom(r, isSpace, index + 1);
      if IsEnd(r, isSpace, index) {
        assert EndsFrom(r, isSpace, index) == [index] + rest;
        assert ends + ([index] + rest) == (ends + [index]) + rest;
        ends := ends + [index];
      } else {
        assert EndsFrom(r, isSpace, index) == rest;
      }
    }
  }

  /** The last loop of `map_tokens`: each token end, with the start the
      scan carried to it, gives one token. */
  method MapEnds<T, R>(r: seq<T>, f: seq<T> -> R, isSpace: T -> bool,
                       offsets: seq<IPair>, ends: seq<nat>) returns (results: seq<R>)
    requires |offsets| == |r| + 1
    requires forall i | 0 <= i <= |r| :: offsets[i] == FoldG(StartPairs(r, isSpace)[..i])
    requires ends == EndsFrom(r, isSpace, 0)
    ensures |results| == |TokenSlices(r, isSpace)|
    ensures forall k | 0 <= k < |results| :: results[k] == f(TokenSlices(r, isSpace)[k])
  {
    var runs := Runs(r, isSpace);
    var slices := TokenSlices(r, isSpace);
    RunsInRange(r, isSpace, 0);
    EndsMatchRuns(r, isSpace, 0);
    StartsMatchRuns(r, isSpace, 0);
    CarriedStarts(r, isSpace);
    ClosesAt(runs);
    results := [];
    for k := 0 to |ends|
      invariant |results| == k
      invariant forall l | 0 <= l < k :: results[l] == f(slices[l])
    {
      var index := ends[k];
      ScanOfStarts(r, isSpace, index);
      var lastStart := offsets[index].last;
      results := results + [f(r[lastStart..index])];
    }
  }

/** `map_tokens`: applies `f` to every maximal run of non-separators, left
      to right.  It scans the start pairs with `g`, filters the end
      positions, and reads the carried start at each end.  The number of
      ends equals the scanned token count, as the source asserts. */
  method MapTokens<T, R>(r: seq<T>, f: seq<T> -> R, isSpace: T -> bool) returns (results: seq<R>)
    ensures |results| == |TokenSlices(r, isSpace)|
    ensures forall k | 0 <= k < |results| :: results[k] == f(TokenSlices(r, isSpace)[k])
  {
    var n := |r|;
    if n == 0 {
      return [];
    }
    var startTokens := StartPairs(r, isSpace);
    var offsets, sum := BlockDelayedScan(startTokens);

    var endIndices := EndIndices(r, isSpace);
    results := MapEnds(r, f, isSpace, offsets, endIndices);
    StartsMatchRuns(r, isSpace, 0);
    ScanOfStarts(r, isSpace, n + 1);
    assert startTokens[..n + 1] == startTokens;
    assert |results| == sum.count;
  }

  /** `tokens`: the token slices themselves (`map_tokens` with the identity). */
  method TokensOf<T>(r: seq<T>, isSpace: T -> bool) returns (toks: seq<seq<T>>)
    ensures toks == TokenSlices(r, isSpace)
  {
    toks := MapTokens(r, w => w, isSpace);
  }

  predicate IsBlank(c: char) {
    c == ' '
  }

  /** A concrete case: surrounding and repeated blanks are dropped. */
  lemma TokensOfExample()
    ensures TokenSlices("  ab  cd ", IsBlank) == ["ab", "cd"]
  {
    var r := "  ab  cd ";
    assert RunEnd(r, IsBlank, 2) == 4;
    assert RunEnd(r, IsBlank, 6) == 8;
    assert Runs(r, IsBlank) == [(2, 4), (6, 8)];
    var toks := TokenSlices(r, IsBlank);
    assert toks[0] == r[2..4] == "ab";
    assert toks[1] == r[6..8] == "cd";
  }
}
