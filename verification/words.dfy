/** Unsigned machine words as naturals, with Rust's bitwise operators on
    `u64` defined bit by bit: bit `l` of `x` is `(x / 2^l) % 2`. */
module Words {

  function Pow2(k: nat): (p: nat)
    ensures p >= 1
  {
    if k == 0 then 1 else 2 * Pow2(k - 1)
  }

  /** 2^64: every `u64` is below it. */
  const WordLimit: nat := 0x1_0000_0000_0000_0000

  type U64 = x: nat | x < WordLimit

  lemma {:induction false} Pow2Add(a: nat, b: nat)
    ensures Pow2(a + b) == Pow2(a) * Pow2(b)
    decreases b
  {
    if b > 0 {
      Pow2Add(a, b - 1);
    }
  }

  lemma Pow2Values()
    ensures Pow2(16) == 0x1_0000
    ensures Pow2(30) == 0x4000_0000 && Pow2(32) == 0x1_0000_0000
    ensures Pow2(64) == WordLimit
  {
    assert Pow2(4) == 16;
    Pow2Add(4, 4);
    Pow2Add(8, 8);
    Pow2Add(16, 16);
    Pow2Add(32, 32);
    assert Pow2(6) == 64;
    Pow2Add(8, 6);
    Pow2Add(16, 14);
  }

  /** Bit `l` of `x`. */
  function Bit(x: nat, l: nat): bool
    decreases l
  {
    if l == 0 then x % 2 == 1 else Bit(x / 2, l - 1)
  }

  /** The number of significant bits: 0 for 0, else one more than the
      position of the highest set bit. */
  function BitLen(x: nat): nat
    decreases x
  {
    if x == 0 then 0 else 1 + BitLen(x / 2)
  }

  /** `a ^ b` */
  function Xor(a: nat, b: nat): nat
    decreases a + b
  {
    if a == 0 && b == 0 then 0 else 2 * Xor(a / 2, b / 2) + (if a % 2 != b % 2 then 1 else 0)
  }

  /** `a & b` */
  function And(a: nat, b: nat): nat
    decreases a + b
  {
    if a == 0 && b == 0 then 0 else 2 * And(a / 2, b / 2) + (if a % 2 == 1 && b % 2 == 1 then 1 else 0)
  }

  /** `a | b` */
  function Or(a: nat, b: nat): nat
    decreases a + b
  {
    if a == 0 && b == 0 then 0 else 2 * Or(a / 2, b / 2) + (if a % 2 == 1 || b % 2 == 1 then 1 else 0)
  }

  /** `!x` on a `w`-bit word. */
  function Not(x: nat, w: nat): nat
    requires x < Pow2(w)
  {
    Pow2(w) - 1 - x
  }

  /** `x >> k` */
  function Shr(x: nat, k: nat): nat
    decreases k
  {
    if k == 0 then x else Shr(x / 2, k - 1)
  }

  // ---------------------------------------------------------------------
  // Bits of the operators

  lemma {:induction false} BitXor(a: nat, b: nat, l: nat)
    ensures Bit(Xor(a, b), l) == (Bit(a, l) != Bit(b, l))
    decreases l
  {
    var c := if a % 2 != b % 2 then 1 else 0;
    if a != 0 || b != 0 {
      assert Xor(a, b) == 2 * Xor(a / 2, b / 2) + c;
      Halves(Xor(a / 2, b / 2), c);
    }
    if l > 0 {
      BitXor(a / 2, b / 2, l - 1);
    }
  }

  lemma {:induction false} BitAnd(a: nat, b: nat, l: nat)
    ensures Bit(And(a, b), l) == (Bit(a, l) && Bit(b, l))
    decreases l
  {
    var c := if a % 2 == 1 && b % 2 == 1 then 1 else 0;
    if a != 0 || b != 0 {
      assert And(a, b) == 2 * And(a / 2, b / 2) + c;
      Halves(And(a / 2, b / 2), c);
    }
    if l > 0 {
      BitAnd(a / 2, b / 2, l - 1);
    }
  }

  lemma {:induction false} BitOr(a: nat, b: nat, l: nat)
    ensures Bit(Or(a, b), l) == (Bit(a, l) || Bit(b, l))
    decreases l
  {
    var c := if a % 2 == 1 || b % 2 == 1 then 1 else 0;
    if a != 0 || b != 0 {
      assert Or(a, b) == 2 * Or(a / 2, b / 2) + c;
      Halves(Or(a / 2, b / 2), c);
    }
    if l > 0 {
      BitOr(a / 2, b / 2, l - 1);
    }
  }

  /** Halving undoes appending a low bit. */
  lemma Halves(k: nat, c: nat)
    requires c < 2
    ensures (2 * k + c) / 2 == k && (2 * k + c) % 2 == c
  {
  }

  lemma {:induction false} BitShr(x: nat, k: nat, l: nat)
    ensures Bit(Shr(x, k), l) == Bit(x, l + k)
    decreases k
  {
    if k > 0 {
      BitShr(x / 2, k - 1, l);
      HalfBit(x, l + k - 1);
    }
  }

  lemma HalfBit(x: nat, l: nat)
    ensures Bit(x / 2, l) == Bit(x, l + 1)
  {
  }

  /** A word below 2^w has no bit at or above `w`. */
  lemma {:induction false} BitBeyond(x: nat, w: nat, l: nat)
    requires x < Pow2(w) && l >= w
    ensures !Bit(x, l)
    decreases l
  {
    if l > 0 {
      BitBeyond(x / 2, if w == 0 then 0 else w - 1, l - 1);
    }
  }

  /** The bits of `!x` on `w` bits are the flipped bits of `x` below `w`. */
  lemma {:induction false} BitNot(x: nat, w: nat, l: nat)
    requires x < Pow2(w)
    ensures Bit(Not(x, w), l) == (l < w && !Bit(x, l))
    decreases w
  {
    if w == 0 {
      BitBeyond(0, 0, l);
    } else {
      var half := Pow2(w - 1);
      var q, r := x / 2, x % 2;
      assert x == 2 * q + r && Pow2(w) == 2 * half;
      assert Not(x, w) == 2 * (half - 1 - q) + (1 - r);
      Halves(half - 1 - q, 1 - r);
      Halves(q, r);
      if l > 0 {
        BitNot(q, w - 1, l - 1);
      }
    }
  }

  /** A value is determined by its bits. */
  lemma {:induction false} BitsDetermine(a: nat, b: nat)
    requires forall l: nat :: Bit(a, l) == Bit(b, l)
    ensures a == b
    decreases a + b
  {
    if a != 0 || b != 0 {
      assert Bit(a, 0) == Bit(b, 0);
      forall l: nat
        ensures Bit(a / 2, l) == Bit(b / 2, l)
      {
        assert Bit(a, l + 1) == Bit(b, l + 1);
      }
      BitsDetermine(a / 2, b / 2);
    }
  }

  /** 2^n - 1 has exactly the bits below `n`. */
  lemma {:induction false} BitOnes(n: nat, l: nat)
    ensures Bit(Pow2(n) - 1, l) == (l < n)
    decreases n
  {
    if n == 0 {
      BitBeyond(0, 0, l);
    } else if l > 0 {
      assert (Pow2(n) - 1) / 2 == Pow2(n - 1) - 1;
      BitOnes(n - 1, l - 1);
    } else {
      assert Pow2(n) == 2 * Pow2(n - 1);
    }
  }

  /** The top set bit of a non-zero word is at `BitLen(x) - 1`. */
  lemma {:induction false} TopBit(x: nat)
    requires x != 0
    ensures Bit(x, BitLen(x) - 1)
    decreases x
  {
    if x / 2 != 0 {
      TopBit(x / 2);
    }
  }

  /** `BitLen(x) <= w` exactly when `x` fits in `w` bits. */
  lemma {:induction false} BitLenFits(x: nat, w: nat)
    ensures BitLen(x) <= w <==> x < Pow2(w)
    decreases x
  {
    if x != 0 && w > 0 {
      BitLenFits(x / 2, w - 1);
    }
  }

  /** No bit is set at or above `BitLen(x)`. */
  lemma BitAboveLen(x: nat, l: nat)
    requires l >= BitLen(x)
    ensures !Bit(x, l)
  {
    BitLenFits(x, BitLen(x));
    BitBeyond(x, BitLen(x), l);
  }

  /** `a ^ b` is zero exactly when `a == b`. */
  lemma {:induction false} XorZero(a: nat, b: nat)
    ensures Xor(a, b) == 0 <==> a == b
    decreases a + b
  {
    if a != 0 || b != 0 {
      XorZero(a / 2, b / 2);
    }
  }

  lemma {:induction false} XorSymmetric(a: nat, b: nat)
    ensures Xor(a, b) == Xor(b, a)
    decreases a + b
  {
    if a != 0 || b != 0 {
      XorSymmetric(a / 2, b / 2);
    }
  }

  /** Of two different words, the smaller has a 0 at the highest bit where
      they differ. */
  lemma {:induction false} LessAtTopDifference(a: nat, b: nat)
    requires a != b
    ensures BitLen(Xor(a, b)) >= 1 && (a < b <==> Bit(b, BitLen(Xor(a, b)) - 1))
    decreases a + b
  {
    XorZero(a, b);
    XorZero(a / 2, b / 2);
    if a / 2 != b / 2 {
      LessAtTopDifference(a / 2, b / 2);
    }
  }

  /** The bitwise operators keep words within `w` bits. */
  lemma {:induction false} OpsFit(a: nat, b: nat, w: nat)
    requires a < Pow2(w) && b < Pow2(w)
    ensures Xor(a, b) < Pow2(w) && And(a, b) < Pow2(w) && Or(a, b) < Pow2(w)
    decreases w
  {
    if w > 0 {
      OpsFit(a / 2, b / 2, w - 1);
    }
  }

  lemma {:induction false} ShrFits(x: nat, k: nat)
    ensures Shr(x, k) <= x
    decreases k
  {
    if k > 0 {
      ShrFits(x / 2, k - 1);
    }
  }

  /** Clearing the bits of `m` and then adding `m` sets them:
      `(a & !m) + m == a | m`, so the addition never carries. */
  lemma {:induction false} AndNotPlus(a: nat, m: nat, w: nat)
    requires a < Pow2(w) && m < Pow2(w)
    ensures And(a, Not(m, w)) + m == Or(a, m)
    decreases w
  {
    if w > 0 {
      assert Not(m, w) / 2 == Not(m / 2, w - 1);
      assert Not(m, w) % 2 == 1 - m % 2;
      AndNotPlus(a / 2, m / 2, w - 1);
    }
  }
}
