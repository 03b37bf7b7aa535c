/** The non-copy pack (`nc_pack` and its helpers): the same compaction as
    `pack`, but each kept element is placed into uninitialised storage
    instead of overwriting a default-filled buffer.  Uninitialised storage is
    modelled as a write-once array of optional cells. */
module NcPack {
  import opened SequenceOps
  import opened Wrappers
  import opened Pack

  /** A placement write of `v` into slot `j`; the slot must still be
      uninitialised, so no slot is ever written twice. */
  function Place<T>(cells: seq<Option<T>>, j: nat, v: T): (r: seq<Option<T>>)
    requires j < |cells| && cells[j].None?
    ensures |r| == |cells| && r[j] == Some(v)
    ensures forall l | 0 <= l < |cells| && l != j :: r[l] == cells[l]
  {
    cells[j := Some(v)]
  }

  /** The first `|vals|` cells hold `vals`. */
  ghost predicate HoldsPrefix<T>(cells: seq<Option<T>>, vals: seq<T>) {
    |vals| <= |cells| && forall j | 0 <= j < |vals| :: cells[j] == Some(vals[j])
  }

  /** The cells from `lo` on are all still uninitialised. */
  ghost predicate EmptyFrom<T>(cells: seq<Option<T>>, lo: nat) {
    forall j | lo <= j < |cells| :: cells[j].None?
  }

  /** The values of a completely initialised buffer (`set_len` after every
      slot has been written). */
  function Unwrap<T>(cells: seq<Option<T>>): (r: seq<T>)
    requires forall j | 0 <= j < |cells| :: cells[j].Some?
    ensures |r| == |cells| && forall j | 0 <= j < |cells| :: cells[j] == Some(r[j])
  {
    seq(|cells|, j requires 0 <= j < |cells| => cells[j].value)
  }

  /** A buffer whose initialised prefix covers all of it unwraps to that
      prefix. */
  lemma FilledBuffer<T>(cells: seq<Option<T>>, vals: seq<T>)
    requires HoldsPrefix(cells, vals) && |vals| == |cells|
    ensures forall j | 0 <= j < |cells| :: cells[j].Some?
    ensures Unwrap(cells) == vals
  {
  }

  /** `nc_pack_serial_at`: places the flagged source entries, in order, into
      the first uninitialised slots of the slice, each slot exactly once, and
      leaves the other slots as they were. */
  method NcPackSerialAt<T>(src: seq<T>, flags: seq<bool>, cells: seq<Option<T>>) returns (out: seq<Option<T>>)
    requires |flags| <= |src|
    requires CountTrue(flags) <= |cells|
    requires forall j | 0 <= j < CountTrue(flags) :: cells[j].None?
    ensures |out| == |cells|
    ensures HoldsPrefix(out, Packed(src, flags))
    ensures out[CountTrue(flags)..] == cells[CountTrue(flags)..]
  {
    var k := 0;
    out := cells;
    assert flags[..0] == [];
    for i := 0 to |flags|
      invariant k == CountTrue(flags[..i])
      invariant k <= CountTrue(flags)
      invariant |out| == |cells|
      invariant HoldsPrefix(out, Packed(src, flags[..i]))
      invariant out[k..] == cells[k..]
    {
      PackedPrefixStep(src, flags, i);
      PackedLength(src, flags[..i]);
      PrefixCountsGrow(flags, i + 1, |flags|);
      if flags[i] {
        assert out[k] == cells[k];
        out := Place(out, k, src[i]);
        k := k + 1;
      }
    }
    assert flags[..|flags|] == flags;
  }

  /** `nc_pack_serial`: reserves exactly as many uninitialised slots as there
      are true flags and places the kept entries into them. */
  method NcPackSerial<T>(src: seq<T>, flags: seq<bool>) returns (dest: seq<T>)
    requires |flags| <= |src|
    ensures dest == Packed(src, flags)
  {
    var m := CountTrue(flags);
    var cells: seq<Option<T>> := seq(m, _ => None);
    cells := NcPackSerialAt(src, flags, cells);
    PackedLength(src, flags);
    dest := Unwrap(cells);
  }

  /** Splicing a block's freshly filled slice into the buffer extends the
      initialised prefix by the block's values. */
  lemma SpliceBlock<T>(cells: seq<Option<T>>, lo: nat, hi: nat, chunk: seq<Option<T>>,
                       before: seq<T>, block: seq<T>)
    requires lo <= hi <= |cells| && |before| == lo && |block| == hi - lo && |chunk| == hi - lo
    requires HoldsPrefix(cells, before) && EmptyFrom(cells, lo)
    requires HoldsPrefix(chunk, block)
    ensures |cells[..lo] + chunk + cells[hi..]| == |cells|
    ensures HoldsPrefix(cells[..lo] + chunk + cells[hi..], before + block)
    ensures EmptyFrom(cells[..lo] + chunk + cells[hi..], hi)
  {
  }

  /** Where block `i` reads and writes: its flags are `[s, e)` and its
      slice of the buffer is `[lo, hi)`, which has room for exactly the
      block's kept entries, right after those of the earlier blocks. */
  lemma BlockSlot<T>(src: seq<T>, flags: seq<bool>, bls: nat, sums: seq<nat>, offsets: seq<nat>,
                     m: nat, i: nat, s: nat, e: nat, lo: nat, hi: nat)
    requires |flags| <= |src| && bls >= 1 && i < NumBlocks(|flags|, bls)
    requires sums == BlockCounts(flags, bls) && m == Sum(sums)
    requires |offsets| == |sums| && forall j | 0 <= j < |sums| :: offsets[j] == Sum(sums[..j])
    requires s == i * bls && e == BlockStart(i + 1, bls, |flags|)
    requires i < |offsets| && lo == offsets[i] && hi == (if i + 1 < |sums| then offsets[i + 1] else m)
    ensures s == BlockStart(i, bls, |flags|) && s <= e <= |flags| && lo <= hi <= m
    ensures lo == CountTrue(flags[..s]) && hi == CountTrue(flags[..e])
    ensures |Packed(src, flags[..s])| == lo
    ensures CountTrue(flags[s..e]) == hi - lo && |Packed(src[s..], flags[s..e])| == hi - lo
    ensures Packed(src, flags[..e]) == Packed(src, flags[..s]) + Packed(src[s..], flags[s..e])
  {
    var n := |flags|;
    BlockStartInRange(i, bls, n);
    BlockOffsets(flags, bls, sums, offsets, m, i);
    BlockStartMonotone(i, bls, n);
    PrefixCountsGrow(flags, s, e);
    PackedLength(src, flags[..s]);
    PackedLength(src[s..], flags[s..e]);
    PackedSplit(src, flags, s, e);
  }

  /** A slice of the uninitialised tail is uninitialised throughout. */
  lemma SliceEmpty<T>(cells: seq<Option<T>>, lo: nat, hi: nat)
    requires lo <= hi <= |cells| && EmptyFrom(cells, lo)
    ensures forall j | 0 <= j < hi - lo :: cells[lo..hi][j].None?
  {
  }

  /** One block of `nc_pack_helper`: the block's kept entries are placed
      into its own slice of the buffer, between its scanned offset and the
      next block's. */
  method PlaceBlock<T>(src: seq<T>, flags: seq<bool>, bls: nat, sums: seq<nat>, offsets: seq<nat>,
                       m: nat, cells: seq<Option<T>>, i: nat) returns (cells': seq<Option<T>>)
    requires |flags| <= |src| && bls >= 1 && i < NumBlocks(|flags|, bls)
    requires sums == BlockCounts(flags, bls) && m == Sum(sums)
    requires |offsets| == |sums| && forall j | 0 <= j < |sums| :: offsets[j] == Sum(sums[..j])
    requires |cells| == m
    requires HoldsPrefix(cells, Packed(src, flags[..BlockStart(i, bls, |flags|)]))
    requires EmptyFrom(cells, CountTrue(flags[..BlockStart(i, bls, |flags|)]))
    ensures |cells'| == m
    ensures HoldsPrefix(cells', Packed(src, flags[..BlockStart(i + 1, bls, |flags|)]))
    ensures EmptyFrom(cells', CountTrue(flags[..BlockStart(i + 1, bls, |flags|)]))
  {
    var s := i * bls;
    var e := BlockStart(i + 1, bls, |flags|);
    var lo := offsets[i];
    var hi := if i + 1 < |sums| then offsets[i + 1] else m;
    BlockSlot(src, flags, bls, sums, offsets, m, i, s, e, lo, hi);
    SliceEmpty(cells, lo, hi);
    var chunk := NcPackSerialAt(src[s..], flags[s..e], cells[lo..hi]);
    SpliceBlock(cells, lo, hi, chunk, Packed(src, flags[..s]), Packed(src[s..], flags[s..e]));
    cells' := cells[..lo] + chunk + cells[hi..];
  }

  /** `nc_pack_helper`: the blocked non-copy pack.  Per-block true counts are
      scanned into offsets and a total `m`; `m` uninitialised slots are
      reserved and every block places its own kept entries into its own
      slice.  Every slot ends up written exactly once and the buffer holds
      the serial pack, for every block size. */
  method NcPackHelper<T>(src: seq<T>, flags: seq<bool>, bls: nat) returns (dest: seq<T>)
    requires |flags| <= |src|
    requires bls >= 1
    ensures dest == Packed(src, flags)
  {
    var n := |flags|;
    var blockNo := NumBlocks(n, bls);
    if blockNo == 1 {
      dest := NcPackSerial(src, flags);
      return;
    }
    var sums := BlockCounts(flags, bls);
    var offsets, m := ScanInplace(sums);
    var cells: seq<Option<T>> := seq(m, _ => None);
    assert flags[..BlockStart(0, bls, n)] == [];
    for i := 0 to blockNo
      invariant |cells| == m
      invariant HoldsPrefix(cells, Packed(src, flags[..BlockStart(i, bls, n)]))
      invariant EmptyFrom(cells, CountTrue(flags[..BlockStart(i, bls, n)]))
    {
      cells := PlaceBlock(src, flags, bls, sums, offsets, m, cells, i);
    }
    BlockStartLast(n, bls);
    assert flags[..n] == flags;
    BlockCountsTotal(flags, bls);
    PackedLength(src, flags);
    FilledBuffer(cells, Packed(src, flags));
    dest := Unwrap(cells);
  }

  /** `nc_pack`: the same sequence `pack` produces, namely the entries of
      `arr` at the true flags in order (empty for an empty `arr`). */
  method NcPack<T>(arr: seq<T>, flags: seq<bool>, bls: nat) returns (dest: seq<T>)
    requires bls >= 1
    requires |arr| == 0 || |flags| <= |arr|
    ensures |arr| == 0 ==> dest == []
    ensures |arr| > 0 ==> dest == Packed(arr, flags) && |dest| == CountTrue(flags)
  {
    if |arr| == 0 {
      dest := [];
    } else {
      dest := NcPackHelper(arr, flags, bls);
      PackedLength(arr, flags);
    }
  }
}
