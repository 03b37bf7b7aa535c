/** Boolean-flag compaction (`pack`, `pack_index` and their serial and
    blocked helpers) from parlay's primitives. */
module Pack {
  import opened SequenceOps
  import opened Wrappers

  /** The reference meaning of packing: the entries of `src` at the flagged
      positions, in increasing position order.  `src` is the virtual source
      sequence read through the index function `arr_f`. */
  function Packed<T>(src: seq<T>, flags: seq<bool>): seq<T>
    requires |flags| <= |src|
    decreases |flags|
  {
    if |flags| == 0 then []
    else Packed(src, flags[..|flags| - 1]) + (if flags[|flags| - 1] then [src[|flags| - 1]] else [])
  }

  /** The flagged positions, in increasing order. */
  function TruePositions(flags: seq<bool>): (r: seq<nat>)
    ensures |r| == CountTrue(flags)
    ensures forall j | 0 <= j < |r| :: r[j] < |flags|
    decreases |flags|
  {
    if |flags| == 0 then []
    else TruePositions(flags[..|flags| - 1]) + (if flags[|flags| - 1] then [|flags| - 1] else [])
  }

  /** The identity sequence 0, 1, ..., n - 1 that `pack_index` packs. */
  function Iota(n: nat): (r: seq<nat>)
    ensures |r| == n && forall i | 0 <= i < n :: r[i] == i
  {
    seq(n, i requires 0 <= i => i)
  }

  ghost predicate StrictlyIncreasing(xs: seq<nat>) {
    forall i, j | 0 <= i < j < |xs| :: xs[i] < xs[j]
  }

  lemma PackedPrefixStep<T>(src: seq<T>, flags: seq<bool>, i: nat)
    requires i < |flags| <= |src|
    ensures Packed(src, flags[..i + 1])
         == Packed(src, flags[..i]) + (if flags[i] then [src[i]] else [])
    ensures CountTrue(flags[..i + 1]) == CountTrue(flags[..i]) + (if flags[i] then 1 else 0)
  {
    assert flags[..i + 1][..i] == flags[..i];
  }

  /** Packing keeps exactly as many entries as there are true flags. */
  lemma {:induction false} PackedLength<T>(src: seq<T>, flags: seq<bool>)
    requires |flags| <= |src|
    ensures |Packed(src, flags)| == CountTrue(flags)
    decreases |flags|
  {
    if |flags| > 0 {
      PackedLength(src, flags[..|flags| - 1]);
    }
  }

  /** Packing a concatenation of flag ranges is the concatenation of the
      packs of the ranges, each read from its own offset of the source; this
      is what lets independent blocks be packed separately. */
  lemma {:induction false} PackedSplit<T>(src: seq<T>, flags: seq<bool>, s: nat, e: nat)
    requires s <= e <= |flags| <= |src|
    ensures Packed(src, flags[..e]) == Packed(src, flags[..s]) + Packed(src[s..], flags[s..e])
    decreases e
  {
    if e == s {
      assert flags[s..e] == [];
    } else {
      PackedSplit(src, flags, s, e - 1);
      PackedPrefixStep(src, flags, e - 1);
      assert flags[s..e][..e - 1 - s] == flags[s..e - 1];
      assert src[s..][e - 1 - s] == src[e - 1];
    }
  }

  /** Entry `j` of the pack is the source entry at the `j`-th true position,
      and the true positions are exactly the flagged indices, increasing. */
  lemma {:induction false} PackedPositions<T>(src: seq<T>, flags: seq<bool>)
    requires |flags| <= |src|
    ensures |TruePositions(flags)| == |Packed(src, flags)| == CountTrue(flags)
    ensures forall j | 0 <= j < |TruePositions(flags)| ::
              TruePositions(flags)[j] < |flags| && Packed(src, flags)[j] == src[TruePositions(flags)[j]]
    ensures StrictlyIncreasing(TruePositions(flags))
    ensures forall i | 0 <= i < |flags| :: flags[i] <==> i in TruePositions(flags)
    decreases |flags|
  {
    if |flags| > 0 {
      var init := flags[..|flags| - 1];
      PackedPositions(src, init);
      forall i | 0 <= i < |init|
        ensures flags[i] == init[i]
      {
      }
    }
  }

  /** `pack_index` is the pack of the identity sequence. */
  lemma {:induction false} PackedIota(flags: seq<bool>)
    ensures Packed(Iota(|flags|), flags) == TruePositions(flags)
  {
    var n := |flags|;
    PackedPositions(Iota(n), flags);
  }

  /** Packing with all flags set copies the source. */
  lemma {:induction false} PackedAllTrue<T>(src: seq<T>, flags: seq<bool>)
    requires |flags| <= |src|
    requires forall i | 0 <= i < |flags| :: flags[i]
    ensures Packed(src, flags) == src[..|flags|]
    decreases |flags|
  {
    if |flags| > 0 {
      PackedAllTrue(src, flags[..|flags| - 1]);
    }
  }

  /** Packing with no flag set gives nothing. */
  lemma {:induction false} PackedAllFalse<T>(src: seq<T>, flags: seq<bool>)
    requires |flags| <= |src|
    requires forall i | 0 <= i < |flags| :: !flags[i]
    ensures Packed(src, flags) == []
    decreases |flags|
  {
    if |flags| > 0 {
      PackedAllFalse(src, flags[..|flags| - 1]);
    }
  }

  /** `pack_serial_at`: writes the flagged source entries, in order, to the
      front of the slice `dest` and returns how many it wrote.  The slice is
      passed in and handed back; entries past the written prefix are left as
      they were. */
  method PackSerialAt<T>(src: seq<T>, flags: seq<bool>, dest: seq<T>) returns (k: nat, out: seq<T>)
    requires |flags| <= |src|
    requires CountTrue(flags) <= |dest|
    ensures k == CountTrue(flags)
    ensures |out| == |dest|
    ensures out[..k] == Packed(src, flags)
    ensures out[k..] == dest[k..]
  {
    k := 0;
    out := dest;
    assert flags[..0] == [];
    for i := 0 to |flags|
      invariant k == CountTrue(flags[..i])
      invariant k <= CountTrue(flags)
      invariant |out| == |dest|
      invariant out[..k] == Packed(src, flags[..i])
      invariant out[k..] == dest[k..]
    {
      PackedPrefixStep(src, flags, i);
      CountTrueAppend(flags[..i + 1], flags[i + 1..]);
      assert flags[..i + 1] + flags[i + 1..] == flags;
      if flags[i] {
        out := out[k := src[i]];
        k := k + 1;
      }
    }
    assert flags[..|flags|] == flags;
  }

  /** `pack_serial`: allocates exactly as many slots as there are true flags
      (filled with `arr_f(0)`) and packs into them. */
  method PackSerial<T>(src: seq<T>, flags: seq<bool>) returns (dest: seq<T>)
    requires 0 < |src| && |flags| <= |src|
    ensures |dest| == CountTrue(flags)
    ensures dest == Packed(src, flags)
  {
    var m := CountTrue(flags);
    dest := seq(m, _ => src[0]);
    var _, filled := PackSerialAt(src, flags, dest);
    dest := filled;
  }

  /** `pack_helper`: with one block it packs serially; otherwise it counts the
      true flags of each block of size `bls`, scans the counts into output
      offsets and the total `m`, allocates `m` slots and lets every block pack
      its own flags into its own slice [offset i, offset i + 1).  The blocks
      are independent; they are visited here one after the other.  The result
      is the serial pack for every block size. */
  method PackHelper<T>(src: seq<T>, flags: seq<bool>, bls: nat) returns (dest: seq<T>)
    requires 0 < |src| && |flags| <= |src|
    requires bls >= 1
    ensures |dest| == CountTrue(flags)
    ensures dest == Packed(src, flags)
  {
    var n := |flags|;
    var blockNo := NumBlocks(n, bls);
    if blockNo == 1 {
      dest := PackSerial(src, flags);
      return;
    }
    var sums := BlockCounts(flags, bls);
    var offsets, m := ScanInplace(sums);
    BlockCountsTotal(flags, bls);
    PackedLength(src, flags);
    dest := seq(m, _ => src[0]);
    BlockStartLast(n, bls);
    for i := 0 to blockNo
      invariant |dest| == m
      invariant CountTrue(flags[..BlockStart(i, bls, n)]) <= m
      invariant dest[..CountTrue(flags[..BlockStart(i, bls, n)])] == Packed(src, flags[..BlockStart(i, bls, n)])
    {
      var s := i * bls;
      BlockStartInRange(i, bls, n);
      var e := BlockStart(i + 1, bls, n);
      var lo := offsets[i];
      var hi := if i + 1 < blockNo then offsets[i + 1] else m;
      BlockOffsets(flags, bls, sums, offsets, m, i);
      BlockStartMonotone(i, bls, n);
      PrefixCountsGrow(flags, s, e);
      var _, filled := PackSerialAt(src[s..], flags[s..e], dest[lo..hi]);
      PackBlockStep(src, flags, bls, i, dest, filled);
      dest := dest[..lo] + filled + dest[hi..];
    }
    assert flags[..n] == flags;
  }

  /** Block `i` of the blocked pack owns the output slice [lo, hi) that its
      scan offsets delimit: `lo` is the true count before the block's first
      flag and `hi` the true count up to its end. */
  lemma BlockOffsets(flags: seq<bool>, bls: nat, sums: seq<nat>, offsets: seq<nat>, m: nat, i: nat)
    requires bls >= 1 && i < NumBlocks(|flags|, bls)
    requires sums == BlockCounts(flags, bls) && m == Sum(sums)
    requires |offsets| == |sums| && forall j | 0 <= j < |sums| :: offsets[j] == Sum(sums[..j])
    ensures offsets[i] == CountTrue(flags[..BlockStart(i, bls, |flags|)])
    ensures (if i + 1 < |sums| then offsets[i + 1] else m) == CountTrue(flags[..BlockStart(i + 1, bls, |flags|)])
    ensures CountTrue(flags[..BlockStart(i, bls, |flags|)])
         <= CountTrue(flags[..BlockStart(i + 1, bls, |flags|)]) <= m
  {
    BlockCountsScan(flags, bls, i);
    BlockCountsScan(flags, bls, i + 1);
    BlockCountsTotal(flags, bls);
    if i + 1 == |sums| {
      BlockStartLast(|flags|, bls);
      assert sums[..i + 1] == sums;
    }
    PrefixCountsGrow(flags, BlockStart(i, bls, |flags|), BlockStart(i + 1, bls, |flags|));
    BlockStartMonotone(i, bls, |flags|);
  }

  /** The true count of a flag range is the difference of the prefix counts. */
  lemma PrefixCountsGrow(flags: seq<bool>, s: nat, e: nat)
    requires s <= e <= |flags|
    ensures CountTrue(flags[..s]) <= CountTrue(flags[..e]) <= CountTrue(flags)
    ensures CountTrue(flags[s..e]) == CountTrue(flags[..e]) - CountTrue(flags[..s])
  {
    assert flags[..e] == flags[..s] + flags[s..e];
    CountTrueAppend(flags[..s], flags[s..e]);
    assert flags == flags[..e] + flags[e..];
    CountTrueAppend(flags[..e], flags[e..]);
  }

  /** Splicing block `i`'s packed slice after the packed earlier blocks gives
      the pack of everything up to the end of block `i`. */
  lemma PackBlockStep<T>(src: seq<T>, flags: seq<bool>, bls: nat, i: nat, dest: seq<T>, filled: seq<T>)
    requires bls >= 1 && i < NumBlocks(|flags|, bls) && |flags| <= |src|
    requires CountTrue(flags[..BlockStart(i, bls, |flags|)])
          <= CountTrue(flags[..BlockStart(i + 1, bls, |flags|)]) <= |dest|
    requires dest[..CountTrue(flags[..BlockStart(i, bls, |flags|)])]
          == Packed(src, flags[..BlockStart(i, bls, |flags|)])
    requires filled == Packed(src[BlockStart(i, bls, |flags|)..],
                              flags[BlockStart(i, bls, |flags|)..BlockStart(i + 1, bls, |flags|)])
    ensures var lo, hi := CountTrue(flags[..BlockStart(i, bls, |flags|)]),
                          CountTrue(flags[..BlockStart(i + 1, bls, |flags|)]);
            && |dest[..lo] + filled + dest[hi..]| == |dest|
            && (dest[..lo] + filled + dest[hi..])[..hi] == Packed(src, flags[..BlockStart(i + 1, bls, |flags|)])
  {
    var n := |flags|;
    var s, e := BlockStart(i, bls, n), BlockStart(i + 1, bls, n);
    BlockStartMonotone(i, bls, n);
    PackedSplit(src, flags, s, e);
    PackedLength(src, flags[..s]);
    PackedLength(src, flags[..e]);
    var lo, hi := CountTrue(flags[..s]), CountTrue(flags[..e]);
    assert |filled| == hi - lo;
    assert (dest[..lo] + filled + dest[hi..])[..hi] == dest[..lo] + filled;
  }

  /** `pack`: the entries of `arr` at the true flags, in order; an empty
      `arr` gives an empty result.  Flags past the end of a non-empty `arr`
      would index out of bounds and are excluded. */
  method Pack<T>(arr: seq<T>, flags: seq<bool>, bls: nat) returns (dest: seq<T>)
    requires bls >= 1
    requires |arr| == 0 || |flags| <= |arr|
    ensures |arr| == 0 ==> dest == []
    ensures |arr| > 0 ==> |dest| == CountTrue(flags) && dest == Packed(arr, flags)
    ensures |arr| > 0 ==> forall j | 0 <= j < |dest| ::
              dest[j] == arr[TruePositions(flags)[j]]
  {
    if |arr| > 0 {
      dest := PackHelper(arr, flags, bls);
      PackedPositions(arr, flags);
    } else {
      dest := [];
    }
  }

  /** Why `pack_index` stops without a result. */
  datatype PackError =
    | InvalidArgument   // the flags are empty (a debug assertion)
    | ConversionError   // a kept index does not fit the element type

  /** `pack_index`: the increasing list of flagged indices, converted to an
      element type whose largest value is `maxValue`.  Empty flags fail the
      debug assertion; a kept index above `maxValue` fails its conversion. */
  method PackIndex(flags: seq<bool>, bls: nat, maxValue: nat) returns (r: Result<seq<nat>, PackError>)
    requires bls >= 1
    ensures |flags| == 0 <==> r == Failure(InvalidArgument)
    ensures r == Failure(ConversionError) <==>
              |flags| > 0 && exists i | 0 <= i < |flags| :: flags[i] && i > maxValue
    ensures r.Success? ==> r.value == TruePositions(flags)
    ensures r.Success? ==> StrictlyIncreasing(r.value) && |r.value| == CountTrue(flags)
    ensures r.Success? ==> forall i | 0 <= i < |flags| :: flags[i] <==> i in r.value
  {
    if |flags| == 0 {
      return Failure(InvalidArgument);
    }
    if exists i | 0 <= i < |flags| :: flags[i] && i > maxValue {
      return Failure(ConversionError);
    }
    var dest := PackHelper(Iota(|flags|), flags, bls);
    PackedIota(flags);
    PackedPositions(Iota(|flags|), flags);
    r := Success(dest);
  }
}
