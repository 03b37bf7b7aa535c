/** The Morton-order bit logic of the nearest-neighbour benchmark (Chan's
    2005 method): comparing points by their bit-interleaved keys without
    building the keys, and bounding the distance from a point to the box
    spanned by two such keys.  Points are `d` coordinates of type `u64`. */
module Chan05 {
  import opened Wrappers
  import opened Words

  /** `KEY_BITS`: all coordinates together use at most 60 key bits. */
  const KeyBits: nat := 60

  /** `1 << k` on `u64`. */
  function Shl(x: U64, k: nat): U64 {
    (x * Pow2(k)) % WordLimit
  }

  lemma {:induction false} Pow2Monotone(a: nat, b: nat)
    requires a <= b
    ensures Pow2(a) <= Pow2(b)
    decreases b
  {
    if a < b {
      Pow2Monotone(a, b - 1);
    }
  }

  /** `max_val`: the largest coordinate value, 2^(60/d) - 1, a word of
      exactly 60/d one bits. */
  function MaxVal(d: nat): (m: U64)
    requires d >= 1
    ensures m + 1 == Pow2(KeyBits / d)
    ensures BitLen(m) == KeyBits / d
  {
    Pow2Values();
    Pow2Monotone(KeyBits / d, 64);
    assert Pow2(KeyBits / d) < WordLimit by {
      Pow2Monotone(KeyBits / d + 1, 64);
    }
    OnesLen(KeyBits / d);
    Shl(1, KeyBits / d) - 1
  }

  /** 2^n - 1 has exactly `n` significant bits. */
  lemma OnesLen(n: nat)
    ensures BitLen(Pow2(n) - 1) == n
  {
    BitLenFits(Pow2(n) - 1, n);
    if n > 0 {
      BitLenFits(Pow2(n) - 1, n - 1);
    }
  }

  /** The two dimensions the benchmark is run with. */
  lemma MaxValOfDims()
    ensures MaxVal(2) == 0x3FFF_FFFF && MaxVal(3) == 0xF_FFFF
  {
    Pow2Values();
    assert Pow2(20) == 0x10_0000 by {
      Pow2Add(16, 4);
    }
  }

  /** `less_msb`: the highest set bit of `x` is below that of `y`, a zero
      word counting as lowest of all. */
  function LessMsb(x: nat, y: nat): (r: bool)
    ensures r <==> BitLen(x) < BitLen(y)
  {
    LessMsbIsBitLen(x, y);
    x < y && x < Xor(x, y)
  }

  lemma XorZeroLeft(z: nat)
    ensures Xor(0, z) == z
    decreases z
  {
    if z != 0 {
      XorZeroLeft(z / 2);
    }
  }

  lemma {:induction false} LessMsbIsBitLen(x: nat, y: nat)
    ensures (x < y && x < Xor(x, y)) <==> BitLen(x) < BitLen(y)
    decreases y
  {
    if y < 2 {
      if x >= 2 {
        assert BitLen(x) == 1 + BitLen(x / 2);
      } else {
        XorZeroLeft(y);
      }
    } else {
      assert Xor(x, y) == 2 * Xor(x / 2, y / 2) + (if x % 2 != y % 2 then 1 else 0);
      assert BitLen(y) == 1 + BitLen(y / 2);
      XorZero(x / 2, y / 2);
      if x < 2 {
        XorZeroLeft(y / 2);
      } else {
        assert BitLen(x) == 1 + BitLen(x / 2);
        XorKeepsOnlyWithZero(x / 2, y / 2);
        LessMsbIsBitLen(x / 2, y / 2);
      }
    }
  }

  /** `a ^ b == a` only when `b == 0`. */
  lemma XorKeepsOnlyWithZero(a: nat, b: nat)
    requires b != 0
    ensures Xor(a, b) != a
  {
    TopBit(b);
    BitXor(a, b, BitLen(b) - 1);
  }

  /** No word has its highest bit below its own. */
  lemma LessMsbIrreflexive(x: nat)
    ensures !LessMsb(x, x)
  {
  }

  // ---------------------------------------------------------------------
  // set_below_msb

  /** Some bit of `x` in positions `l .. l + w` is set. */
  function AnyBit(x: nat, l: nat, w: nat): bool
    decreases w
  {
    w > 0 && (Bit(x, l) || AnyBit(x, l + 1, w - 1))
  }

  lemma {:induction false} AnyBitSplit(x: nat, l: nat, a: nat, b: nat)
    ensures AnyBit(x, l, a + b) == (AnyBit(x, l, a) || AnyBit(x, l + a, b))
    decreases a
  {
    if a > 0 {
      AnyBitSplit(x, l + 1, a - 1, b);
    }
  }

  /** One smearing step `y | y >> k`: bit `l` collects bits `l .. l + k`. */
  lemma SmearStep(x: nat, y: nat, k: nat, l: nat)
    requires forall j: nat :: Bit(y, j) == AnyBit(x, j, k)
    ensures Bit(Or(y, Shr(y, k)), l) == AnyBit(x, l, 2 * k)
  {
    BitOr(y, Shr(y, k), l);
    BitShr(y, k, l);
    AnyBitSplit(x, l, k, k);
  }

  /** `set_below_msb`: ORs `x` with itself shifted right by 1, 2, 4, 8 and
      16, so that each bit collects the 31 bits above it.  For words below
      2^32 this sets every bit below the highest one; wider words are
      smeared only 31 places. */
  function SetBelowMsb(x: U64): (r: U64)
    ensures forall l: nat :: Bit(r, l) == AnyBit(x, l, 32)
    ensures x < 0x1_0000_0000 ==> r == Pow2(BitLen(x)) - 1
  {
    Pow2Values();
    var x1 := Or(x, Shr(x, 1));
    var x2 := Or(x1, Shr(x1, 2));
    var x3 := Or(x2, Shr(x2, 4));
    var x4 := Or(x3, Shr(x3, 8));
    var r := Or(x4, Shr(x4, 16));
    SmearBits(x, x1, x2, x3, x4, r);
    SmearFits(x, x1, x2, x3, x4, r);
    if x < 0x1_0000_0000 then
      SmearValue(x, r);
      r
    else
      r
  }

  lemma SmearBits(x: nat, x1: nat, x2: nat, x3: nat, x4: nat, r: nat)
    requires x1 == Or(x, Shr(x, 1)) && x2 == Or(x1, Shr(x1, 2)) && x3 == Or(x2, Shr(x2, 4))
    requires x4 == Or(x3, Shr(x3, 8)) && r == Or(x4, Shr(x4, 16))
    ensures forall l: nat :: Bit(r, l) == AnyBit(x, l, 32)
  {
    forall l: nat ensures Bit(x, l) == AnyBit(x, l, 1) { }
    forall l: nat ensures Bit(x1, l) == AnyBit(x, l, 2) { SmearStep(x, x, 1, l); }
    forall l: nat ensures Bit(x2, l) == AnyBit(x, l, 4) { SmearStep(x, x1, 2, l); }
    forall l: nat ensures Bit(x3, l) == AnyBit(x, l, 8) { SmearStep(x, x2, 4, l); }
    forall l: nat ensures Bit(x4, l) == AnyBit(x, l, 16) { SmearStep(x, x3, 8, l); }
    forall l: nat ensures Bit(r, l) == AnyBit(x, l, 32) { SmearStep(x, x4, 16, l); }
  }

  lemma SmearFits(x: nat, x1: nat, x2: nat, x3: nat, x4: nat, r: nat)
    requires x < Pow2(64)
    requires x1 == Or(x, Shr(x, 1)) && x2 == Or(x1, Shr(x1, 2)) && x3 == Or(x2, Shr(x2, 4))
    requires x4 == Or(x3, Shr(x3, 8)) && r == Or(x4, Shr(x4, 16))
    ensures r < Pow2(64)
  {
    ShrFits(x, 1);
    OpsFit(x, Shr(x, 1), 64);
    ShrFits(x1, 2);
    OpsFit(x1, Shr(x1, 2), 64);
    ShrFits(x2, 4);
    OpsFit(x2, Shr(x2, 4), 64);
    ShrFits(x3, 8);
    OpsFit(x3, Shr(x3, 8), 64);
    ShrFits(x4, 16);
    OpsFit(x4, Shr(x4, 16), 64);
  }

  /** Below 2^32, collecting 32 bits reaches the highest set bit from every
      position under it. */
  lemma SmearValue(x: nat, r: nat)
    requires x < 0x1_0000_0000
    requires forall l: nat :: Bit(r, l) == AnyBit(x, l, 32)
    ensures r == Pow2(BitLen(x)) - 1
  {
    var n := BitLen(x);
    Pow2Values();
    BitLenFits(x, 32);
    forall l: nat
      ensures Bit(r, l) == Bit(Pow2(n) - 1, l)
    {
      BitOnes(n, l);
      if l < n {
        TopBit(x);
        AnyBitHas(x, l, 32, n - 1);
      } else {
        AnyBitNone(x, l, 32);
      }
    }
    BitsDetermine(r, Pow2(n) - 1);
  }

  lemma {:induction false} AnyBitHas(x: nat, l: nat, w: nat, j: nat)
    requires l <= j < l + w && Bit(x, j)
    ensures AnyBit(x, l, w)
    decreases w
  {
    if j > l {
      AnyBitHas(x, l + 1, w - 1, j);
    }
  }

  lemma {:induction false} AnyBitNone(x: nat, l: nat, w: nat)
    requires l >= BitLen(x)
    ensures !AnyBit(x, l, w)
    decreases w
  {
    if w > 0 {
      BitAboveLen(x, l);
      AnyBitNone(x, l + 1, w - 1);
    }
  }

  /** Below 2^32 the smeared word covers `x` and smearing again changes
      nothing. */
  lemma SetBelowMsbCovers(x: U64)
    requires x < 0x1_0000_0000
    ensures SetBelowMsb(x) >= x
  {
    BitLenFits(x, BitLen(x));
  }

  lemma SetBelowMsbIdempotent(x: U64)
    requires x < 0x1_0000_0000
    ensures SetBelowMsb(SetBelowMsb(x)) == SetBelowMsb(x)
  {
    var n := BitLen(x);
    var r := SetBelowMsb(x);
    Pow2Values();
    OnesLen(n);
    BitLenFits(x, 32);
    BitLenFits(r, 32);
  }

  /** Above 2^32 the smear stops 31 places below the highest bit: for 2^40
      the lowest nine bits stay clear. */
  lemma SetBelowMsbWide()
    ensures SetBelowMsb(0x100_0000_0000) % 2 == 0
  {
    Pow2Values();
    var x: nat := 0x100_0000_0000;
    assert x == Pow2(40) by {
      Pow2Add(32, 8);
      assert Pow2(8) == 256;
    }
    assert !AnyBit(x, 0, 32) by {
      forall j: nat | j < 32
        ensures !Bit(x, j)
      {
        BitOfPow2(40, j);
      }
      AnyBitClear(x, 0, 32);
    }
  }

  lemma {:induction false} BitOfPow2(k: nat, j: nat)
    ensures Bit(Pow2(k), j) == (j == k)
    decreases k
  {
    if k == 0 {
      if j > 0 {
        BitBeyond(0, 0, j - 1);
      }
    } else if j > 0 {
      BitOfPow2(k - 1, j - 1);
    }
  }

  lemma {:induction false} AnyBitClear(x: nat, l: nat, w: nat)
    requires forall j: nat | l <= j < l + w :: !Bit(x, j)
    ensures !AnyBit(x, l, w)
    decreases w
  {
    if w > 0 {
      AnyBitClear(x, l + 1, w - 1);
    }
  }

  // ---------------------------------------------------------------------
  // The dimension of the highest differing bit

  /** The per-dimension differences `p[i] ^ q[i]`. */
  function Diffs(p: seq<U64>, q: seq<U64>): (ds: seq<U64>)
    requires |p| == |q|
    ensures |ds| == |p|
    ensures forall i | 0 <= i < |p| :: ds[i] == Xor(p[i], q[i])
  {
    seq(|p|, i requires 0 <= i < |p| => XorWord(p[i], q[i]))
  }

  /** `a ^ b` stays a word. */
  function XorWord(a: U64, b: U64): (r: U64)
    ensures r == Xor(a, b)
  {
    Pow2Values();
    OpsFit(a, b, 64);
    Xor(a, b)
  }

  /** `k` is the first dimension whose difference has the highest top bit. */
  ghost predicate FirstHighest(ds: seq<nat>, k: nat) {
    && k < |ds|
    && (forall e | 0 <= e < |ds| :: BitLen(ds[e]) <= BitLen(ds[k]))
    && (forall e | 0 <= e < k :: BitLen(ds[e]) < BitLen(ds[k]))
  }

  /** The loop of `cmp_shuffle` and `dist_sq_to_box`: scanning the
      dimensions in order from `(0, 0)`, a difference replaces the one kept
      so far when `less_msb` says its highest bit is strictly higher.  The
      result is the first difference with the highest top bit, and its
      dimension. */
  function Highest(ds: seq<U64>): (h: (U64, nat))
    ensures |ds| == 0 ==> h == (0, 0)
    ensures |ds| > 0 ==> h.1 < |ds| && h.0 == ds[h.1] && FirstHighest(ds, h.1)
    decreases |ds|
  {
    if |ds| == 0 then (0, 0)
    else
      var prev := Highest(ds[..|ds| - 1]);
      if LessMsb(prev.0, ds[|ds| - 1]) then (ds[|ds| - 1], |ds| - 1) else prev
  }

  // ---------------------------------------------------------------------
  // cmp_shuffle

  /** `Ord::cmp` on `u64`. */
  function CompareU64(a: U64, b: U64): Ordering {
    if a < b then Less else if a == b then Equal else Greater
  }

  /** Bit level `l` of every coordinate, dimension 0 first. */
  function Level(p: seq<U64>, l: nat): (bits: seq<bool>)
    ensures |bits| == |p|
  {
    seq(|p|, e requires 0 <= e < |p| => Bit(p[e], l))
  }

  /** The interleaved key bits of levels `l - 1` down to 0. */
  function InterleaveFrom(p: seq<U64>, l: nat): (key: seq<bool>)
    ensures |key| == l * |p|
    decreases l
  {
    if l == 0 then [] else Level(p, l - 1) + InterleaveFrom(p, l - 1)
  }

  /** The Morton key of `p`: from the top bit level down, the bits of
      dimensions 0, 1, ... at that level. */
  function Interleave(p: seq<U64>): seq<bool> {
    InterleaveFrom(p, 64)
  }

  /** Lexicographic order on bit strings, `false` before `true`. */
  function LexCompare(a: seq<bool>, b: seq<bool>): Ordering
    requires |a| == |b|
    decreases |a|
  {
    if |a| == 0 then Equal
    else if a[0] == b[0] then LexCompare(a[1..], b[1..])
    else if b[0] then Less
    else Greater
  }

  lemma {:induction false} LexEqual(a: seq<bool>, b: seq<bool>)
    requires |a| == |b|
    ensures LexCompare(a, b) == Equal <==> a == b
    decreases |a|
  {
    if |a| > 0 {
      LexEqual(a[1..], b[1..]);
      if a[0] == b[0] && a[1..] == b[1..] {
        assert a == [a[0]] + a[1..];
        assert b == [b[0]] + b[1..];
      }
    }
  }

  lemma {:induction false} LexReverse(a: seq<bool>, b: seq<bool>)
    requires |a| == |b|
    ensures LexCompare(b, a) == LexCompare(a, b).Reverse()
    decreases |a|
  {
    if |a| > 0 {
      LexReverse(a[1..], b[1..]);
    }
  }

  lemma {:induction false} LexAppend(a1: seq<bool>, a2: seq<bool>, b1: seq<bool>, b2: seq<bool>)
    requires |a1| == |b1| && |a2| == |b2|
    ensures LexCompare(a1 + a2, b1 + b2)
            == if a1 == b1 then LexCompare(a2, b2) else LexCompare(a1, b1)
    decreases |a1|
  {
    if |a1| == 0 {
      assert a1 + a2 == a2 && b1 + b2 == b2;
    } else {
      assert (a1 + a2)[1..] == a1[1..] + a2;
      assert (b1 + b2)[1..] == b1[1..] + b2;
      LexAppend(a1[1..], a2, b1[1..], b2);
      if a1[0] == b1[0] && a1[1..] == b1[1..] {
        assert a1 == [a1[0]] + a1[1..];
        assert b1 == [b1[0]] + b1[1..];
      }
    }
  }

  /** Two bit strings that agree before `k` and differ at `k` are ordered by
      their bits at `k`. */
  lemma {:induction false} LexFirstDifference(a: seq<bool>, b: seq<bool>, k: nat)
    requires |a| == |b| && k < |a|
    requires a[..k] == b[..k] && a[k] != b[k]
    ensures LexCompare(a, b) == if b[k] then Less else Greater
    decreases k
  {
    if k > 0 {
      assert a[0] == a[..k][0] && b[0] == b[..k][0];
      assert a[1..][..k - 1] == a[..k][1..];
      assert b[1..][..k - 1] == b[..k][1..];
      LexFirstDifference(a[1..], b[1..], k - 1);
    }
  }

  /** `cmp_shuffle`: the order of the Morton keys of `p` and `q`, computed
      by comparing the coordinates of the dimension that holds the highest
      differing bit.  The keys are never built. */
  function CmpShuffle(p: seq<U64>, q: seq<U64>): (r: Ordering)
    requires |p| == |q| >= 1
    ensures r == LexCompare(Interleave(p), Interleave(q))
  {
    var k := Highest(Diffs(p, q)).1;
    CmpShuffleIsLex(p, q);
    CompareU64(p[k], q[k])
  }

  lemma CmpShuffleIsLex(p: seq<U64>, q: seq<U64>)
    requires |p| == |q| >= 1
    ensures CompareU64(p[Highest(Diffs(p, q)).1], q[Highest(Diffs(p, q)).1])
            == LexCompare(Interleave(p), Interleave(q))
  {
    var h := Highest(Diffs(p, q));
    if h.0 == 0 {
      EqualWhenNoDifference(p, q);
      LexEqual(Interleave(p), Interleave(q));
    } else {
      OrderAtTopDifference(p, q);
    }
  }

  /** With no differing bit the points are equal. */
  lemma EqualWhenNoDifference(p: seq<U64>, q: seq<U64>)
    requires |p| == |q| >= 1 && Highest(Diffs(p, q)).0 == 0
    ensures p == q
  {
    var ds := Diffs(p, q);
    forall e | 0 <= e < |p|
      ensures p[e] == q[e]
    {
      assert BitLen(ds[e]) == 0;
      XorZero(p[e], q[e]);
    }
  }

  lemma OrderAtTopDifference(p: seq<U64>, q: seq<U64>)
    requires |p| == |q| >= 1 && Highest(Diffs(p, q)).0 != 0
    ensures CompareU64(p[Highest(Diffs(p, q)).1], q[Highest(Diffs(p, q)).1])
            == LexCompare(Interleave(p), Interleave(q))
  {
    var h := Highest(Diffs(p, q));
    var k := h.1;
    var top := BitLen(h.0) - 1;
    assert top < 64 by {
      Pow2Values();
      BitLenFits(h.0, 64);
    }
    XorZero(p[k], q[k]);
    LessAtTopDifference(p[k], q[k]);
    TopLevelOrders(p, q, k, top);
    InterleaveFromTop(p, q, top, 64);
  }

  /** At the level of the highest differing bit, the first dimension that
      differs there is the kept one, so that level is ordered by `q[k]`'s
      bit. */
  lemma TopLevelOrders(p: seq<U64>, q: seq<U64>, k: nat, top: nat)
    requires |p| == |q|
    requires FirstHighest(Diffs(p, q), k) && Diffs(p, q)[k] != 0
    requires top == BitLen(Diffs(p, q)[k]) - 1
    ensures LexCompare(Level(p, top), Level(q, top)) == if Bit(q[k], top) then Less else Greater
  {
    var ds := Diffs(p, q);
    forall e | 0 <= e < k
      ensures Level(p, top)[e] == Level(q, top)[e]
    {
      BitAboveLen(ds[e], top);
      BitXor(p[e], q[e], top);
    }
    assert Level(p, top)[..k] == Level(q, top)[..k];
    TopBit(ds[k]);
    BitXor(p[k], q[k], top);
    LexFirstDifference(Level(p, top), Level(q, top), k);
  }

  /** Above the highest differing bit every level agrees, so the keys are
      ordered by that bit's level. */
  lemma {:induction false} InterleaveFromTop(p: seq<U64>, q: seq<U64>, top: nat, l: nat)
    requires |p| == |q|
    requires top < l
    requires forall e | 0 <= e < |p| :: BitLen(Diffs(p, q)[e]) <= top + 1
    requires LexCompare(Level(p, top), Level(q, top)) != Equal
    ensures |InterleaveFrom(p, l)| == |InterleaveFrom(q, l)|
    ensures LexCompare(InterleaveFrom(p, l), InterleaveFrom(q, l)) == LexCompare(Level(p, top), Level(q, top))
    decreases l
  {
    var lp, lq := Level(p, l - 1), Level(q, l - 1);
    LexAppend(lp, InterleaveFrom(p, l - 1), lq, InterleaveFrom(q, l - 1));
    if l - 1 == top {
      LexEqual(lp, lq);
    } else {
      var ds := Diffs(p, q);
      forall e | 0 <= e < |p|
        ensures lp[e] == lq[e]
      {
        BitAboveLen(ds[e], l - 1);
        BitXor(p[e], q[e], l - 1);
      }
      assert lp == lq;
      InterleaveFromTop(p, q, top, l - 1);
    }
  }

  /** `cmp_shuffle` answers `Equal` exactly for equal points. */
  lemma CmpShuffleEqual(p: seq<U64>, q: seq<U64>)
    requires |p| == |q| >= 1
    ensures CmpShuffle(p, q) == Equal <==> p == q
  {
    LexEqual(Interleave(p), Interleave(q));
    if Interleave(p) == Interleave(q) {
      InterleaveInjective(p, q);
    }
  }

  lemma InterleaveInjective(p: seq<U64>, q: seq<U64>)
    requires |p| == |q| && Interleave(p) == Interleave(q)
    ensures p == q
  {
    forall e, l: nat | 0 <= e < |p| && l < 64
      ensures Bit(p[e], l) == Bit(q[e], l)
    {
      LevelInInterleave(p, q, l, 64);
      assert Level(p, l)[e] == Level(q, l)[e];
    }
    Pow2Values();
    forall e | 0 <= e < |p|
      ensures p[e] == q[e]
    {
      forall l: nat
        ensures Bit(p[e], l) == Bit(q[e], l)
      {
        if l >= 64 {
          BitBeyond(p[e], 64, l);
          BitBeyond(q[e], 64, l);
        }
      }
      BitsDetermine(p[e], q[e]);
    }
  }

  lemma {:induction false} LevelInInterleave(p: seq<U64>, q: seq<U64>, l: nat, m: nat)
    requires |p| == |q| && l < m
    requires InterleaveFrom(p, m) == InterleaveFrom(q, m)
    ensures Level(p, l) == Level(q, l)
    decreases m
  {
    var lp, lq := Level(p, m - 1), Level(q, m - 1);
    assert InterleaveFrom(p, m)[..|p|] == lp;
    assert InterleaveFrom(q, m)[..|q|] == lq;
    if l < m - 1 {
      assert InterleaveFrom(p, m)[|p|..] == InterleaveFrom(p, m - 1);
      assert InterleaveFrom(q, m)[|q|..] == InterleaveFrom(q, m - 1);
      LevelInInterleave(p, q, l, m - 1);
    }
  }

  /** Swapping the operands of `cmp_shuffle` reverses the answer. */
  lemma CmpShuffleAntisymmetric(p: seq<U64>, q: seq<U64>)
    requires |p| == |q| >= 1
    ensures CmpShuffle(q, p) == CmpShuffle(p, q).Reverse()
  {
    LexReverse(Interleave(p), Interleave(q));
  }

  // ---------------------------------------------------------------------
  // dist_sq_to_box

  /** The extrapolated box of two keys: `set_below_msb` of the highest
      per-dimension difference, a mask of the low bits in which the keys'
      common prefix leaves them free. */
  function BoxSize(b0: seq<U64>, b1: seq<U64>): U64
    requires |b0| == |b1|
  {
    SetBelowMsb(Highest(Diffs(b0, b1)).0)
  }

  /** `b & !box`: the box's lower corner in one dimension. */
  function LowerBound(b: U64, box: U64): (lo: U64)
    ensures lo <= b
  {
    Pow2Values();
    AndAtMost(b, Not(box, 64));
    And(b, Not(box, 64))
  }

  /** `lower_bound + box_size`: the box's upper corner.  The addition never
      overflows, as it equals `b | box`. */
  function UpperBound(b: U64, box: U64): (hi: U64)
    ensures hi == Or(b, box) && hi >= b
  {
    Pow2Values();
    AndNotPlus(b, box, 64);
    OpsFit(b, box, 64);
    OrAtLeast(b, box);
    LowerBound(b, box) + box
  }

  lemma {:induction false} AndAtMost(a: nat, b: nat)
    ensures And(a, b) <= a
    decreases a + b
  {
    if a != 0 || b != 0 {
      AndAtMost(a / 2, b / 2);
    }
  }

  lemma {:induction false} OrAtLeast(a: nat, b: nat)
    ensures Or(a, b) >= a && Or(a, b) >= b
    decreases a + b
  {
    if a != 0 || b != 0 {
      OrAtLeast(a / 2, b / 2);
    }
  }

  /** The squared distance from `x` to the interval `[lo, hi]`. */
  function GapSq(x: int, lo: int, hi: int): nat {
    if x < lo then (lo - x) * (lo - x) else if x > hi then (x - hi) * (x - hi) else 0
  }

  /** The exact squared distance from `p` to the box of `b0` with mask
      `box`, over the first `n` dimensions. */
  function SumGapSq(p: seq<U64>, b0: seq<U64>, box: U64, n: nat): nat
    requires n <= |p| == |b0|
  {
    if n == 0 then 0
    else SumGapSq(p, b0, box, n - 1) + GapSq(p[n - 1], LowerBound(b0[n - 1], box), UpperBound(b0[n - 1], box))
  }

  /** `u64` arithmetic wraps modulo 2^64 in release builds. */
  function Wrap(x: int): U64 {
    x % WordLimit
  }

  /** The distance loop of `dist_sq_to_box` over the first `n` dimensions,
      with `pow(2)` and `+=` wrapping as in a release build. */
  function DistLoop(p: seq<U64>, b0: seq<U64>, box: U64, n: nat): U64
    requires n <= |p| == |b0|
  {
    if n == 0 then 0
    else
      var distance := DistLoop(p, b0, box, n - 1);
      var lo := LowerBound(b0[n - 1], box);
      var hi := UpperBound(b0[n - 1], box);
      if p[n - 1] < lo then Wrap(distance + Wrap((lo - p[n - 1]) * (lo - p[n - 1])))
      else if p[n - 1] > hi then Wrap(distance + Wrap((p[n - 1] - hi) * (p[n - 1] - hi)))
      else distance
  }

  lemma WrapAdd(a: int, b: int)
    ensures Wrap(Wrap(a) + Wrap(b)) == Wrap(a + b)
  {
  }

  lemma {:induction false} DistLoopWraps(p: seq<U64>, b0: seq<U64>, box: U64, n: nat)
    requires n <= |p| == |b0|
    ensures DistLoop(p, b0, box, n) == Wrap(SumGapSq(p, b0, box, n))
    decreases n
  {
    if n > 0 {
      DistLoopWraps(p, b0, box, n - 1);
      var g := GapSq(p[n - 1], LowerBound(b0[n - 1], box), UpperBound(b0[n - 1], box));
      WrapAdd(SumGapSq(p, b0, box, n - 1), g);
    }
  }

  /** `dist_sq_to_box`: the squared distance from `p` to the box extrapolated
      from the keys `b0` and `b1`, summed over the dimensions modulo 2^64. */
  function DistSqToBox(p: seq<U64>, b0: seq<U64>, b1: seq<U64>): (r: U64)
    requires |p| == |b0| == |b1|
    ensures r == Wrap(SumGapSq(p, b0, BoxSize(b0, b1), |p|))
  {
    DistLoopWraps(p, b0, BoxSize(b0, b1), |p|);
    DistLoop(p, b0, BoxSize(b0, b1), |p|)
  }

  /** A point inside the box in every dimension is at distance 0. */
  lemma DistInsideIsZero(p: seq<U64>, b0: seq<U64>, b1: seq<U64>)
    requires |p| == |b0| == |b1|
    requires forall i | 0 <= i < |p| ::
               LowerBound(b0[i], BoxSize(b0, b1)) <= p[i] <= UpperBound(b0[i], BoxSize(b0, b1))
    ensures DistSqToBox(p, b0, b1) == 0
  {
    SumInsideIsZero(p, b0, BoxSize(b0, b1), |p|);
  }

  lemma {:induction false} SumInsideIsZero(p: seq<U64>, b0: seq<U64>, box: U64, n: nat)
    requires n <= |p| == |b0|
    requires forall i | 0 <= i < n :: LowerBound(b0[i], box) <= p[i] <= UpperBound(b0[i], box)
    ensures SumGapSq(p, b0, box, n) == 0
    decreases n
  {
    if n > 0 {
      SumInsideIsZero(p, b0, box, n - 1);
    }
  }

  /** When every coordinate is below 2^32 (the benchmark's coordinates are at
      most `max_val(2)` or `max_val(3)`), both keys lie inside the box they
      span, so each is at distance 0 from it. */
  lemma EndpointsInsideBox(b0: seq<U64>, b1: seq<U64>)
    requires |b0| == |b1|
    requires forall i | 0 <= i < |b0| :: b0[i] < 0x1_0000_0000 && b1[i] < 0x1_0000_0000
    ensures DistSqToBox(b0, b0, b1) == 0
    ensures DistSqToBox(b1, b0, b1) == 0
  {
    var box := BoxSize(b0, b1);
    forall i | 0 <= i < |b0|
      ensures LowerBound(b0[i], box) <= b1[i] <= UpperBound(b0[i], box)
    {
      SameLowerBound(b0, b1, i);
      OrAtLeast(b1[i], box);
      assert UpperBound(b0[i], box) == UpperBound(b1[i], box);
    }
    DistInsideIsZero(b0, b0, b1);
    DistInsideIsZero(b1, b0, b1);
  }

  /** Below 2^32 the box covers every bit in which the keys differ, so both
      keys have the same lower corner. */
  lemma SameLowerBound(b0: seq<U64>, b1: seq<U64>, i: nat)
    requires |b0| == |b1| && i < |b0|
    requires forall j | 0 <= j < |b0| :: b0[j] < 0x1_0000_0000 && b1[j] < 0x1_0000_0000
    ensures LowerBound(b0[i], BoxSize(b0, b1)) == LowerBound(b1[i], BoxSize(b0, b1))
  {
    var ds := Diffs(b0, b1);
    var h := Highest(ds);
    Pow2Values();
    var n := BitLen(h.0);
    if |b0| > 0 {
      OpsFit(b0[h.1], b1[h.1], 32);
    }
    var box := BoxSize(b0, b1);
    assert box == Pow2(n) - 1;
    forall l: nat
      ensures Bit(LowerBound(b0[i], box), l) == Bit(LowerBound(b1[i], box), l)
    {
      BitAnd(b0[i], Not(box, 64), l);
      BitAnd(b1[i], Not(box, 64), l);
      BitNot(box, 64, l);
      BitOnes(n, l);
      if l >= n {
        BitAboveLen(ds[i], l);
        BitXor(b0[i], b1[i], l);
      }
    }
    BitsDetermine(LowerBound(b0[i], box), LowerBound(b1[i], box));
  }

  /** With at most three dimensions and coordinates below 2^30, the sum of
      squares stays below 2^64, so the wrapping never happens. */
  lemma DistNeverWraps(p: seq<U64>, b0: seq<U64>, b1: seq<U64>)
    requires |p| == |b0| == |b1| <= 3
    requires forall i | 0 <= i < |p| :: p[i] < 0x4000_0000 && b0[i] < 0x4000_0000 && b1[i] < 0x4000_0000
    ensures DistSqToBox(p, b0, b1) == SumGapSq(p, b0, BoxSize(b0, b1), |p|)
  {
    var box := BoxSize(b0, b1);
    BoxFits(b0, b1);
    SumBound(p, b0, box, |p|);
    var s := SumGapSq(p, b0, box, |p|);
    assert s <= 3 * 0x1000_0000_0000_0000;
    WrapSmall(s);
  }

  lemma WrapSmall(x: int)
    requires 0 <= x < WordLimit
    ensures Wrap(x) == x
  {
  }

  lemma BoxFits(b0: seq<U64>, b1: seq<U64>)
    requires |b0| == |b1|
    requires forall i | 0 <= i < |b0| :: b0[i] < 0x4000_0000 && b1[i] < 0x4000_0000
    ensures BoxSize(b0, b1) < 0x4000_0000
  {
    var h := Highest(Diffs(b0, b1));
    Pow2Values();
    if |b0| > 0 {
      OpsFit(b0[h.1], b1[h.1], 30);
    }
    BitLenFits(h.0, 30);
    Pow2Monotone(BitLen(h.0), 30);
  }

  lemma {:induction false} SumBound(p: seq<U64>, b0: seq<U64>, box: U64, n: nat)
    requires n <= |p| == |b0|
    requires box < 0x4000_0000
    requires forall i | 0 <= i < |p| :: p[i] < 0x4000_0000 && b0[i] < 0x4000_0000
    ensures SumGapSq(p, b0, box, n) <= n * 0x1000_0000_0000_0000
    decreases n
  {
    if n > 0 {
      SumBound(p, b0, box, n - 1);
      var lo := LowerBound(b0[n - 1], box);
      var hi := UpperBound(b0[n - 1], box);
      Pow2Values();
      OpsFit(b0[n - 1], box, 30);
      GapBound(p[n - 1], lo, hi);
    }
  }

  lemma GapBound(x: int, lo: int, hi: int)
    requires 0 <= x < 0x4000_0000 && 0 <= lo < 0x4000_0000 && 0 <= hi < 0x4000_0000
    ensures GapSq(x, lo, hi) <= 0x1000_0000_0000_0000
  {
    var g := if x < lo then lo - x else if x > hi then x - hi else 0;
    assert 0 <= g < 0x4000_0000;
    assert GapSq(x, lo, hi) == g * g;
    MulBound(g, g, 0x4000_0000);
  }

  lemma MulBound(a: nat, b: nat, m: nat)
    requires a < m && b < m
    ensures a * b <= m * m
  {
  }
}
