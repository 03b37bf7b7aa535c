/** The two-ended partition `split` of the serial quick-hull.  It moves the
    indices that meet a left criterion to the front of the slice and those
    that meet a right criterion to the back, in one pass and in place,
    overwriting the rest.

    The source keeps four cursors `ll <= lm <= rm <= rr` with `rm` and `rr`
    pointing AT the last unconsumed element and the first free back slot.
    Here the two back cursors are kept one past those positions,
    `rm1 = rm + 1` and `rr1 = rr + 1`, so that every cursor is a `nat`: the
    source's `rm` wraps to `usize::MAX` exactly when `rm1` reaches 0, and
    its `rr` stays a valid `usize` exactly when `rr1 >= 1`. */
module QuickHull {

  /** `{x}` when `x` satisfies `f`, and the empty bag otherwise. */
  function Single<T>(x: T, f: T -> bool): multiset<T> {
    if f(x) then multiset{x} else multiset{}
  }

  /** The elements of `xs` that satisfy `f`, as a bag. */
  function Picked<T>(xs: seq<T>, f: T -> bool): (m: multiset<T>)
    ensures |m| <= |xs|
    decreases |xs|
  {
    if |xs| == 0 then multiset{} else Single(xs[0], f) + Picked(xs[1..], f)
  }

  lemma {:induction false} PickedAppend<T>(a: seq<T>, b: seq<T>, f: T -> bool)
    ensures Picked(a + b, f) == Picked(a, f) + Picked(b, f)
    decreases |a|
  {
    if |a| == 0 {
      assert a + b == b;
    } else {
      assert (a + b)[1..] == a[1..] + b;
      PickedAppend(a[1..], b, f);
    }
  }

  /** A sequence with an element outside `f` has fewer picked elements
      than elements. */
  lemma {:induction false} PickedProper<T>(xs: seq<T>, f: T -> bool, i: nat)
    requires i < |xs| && !f(xs[i])
    ensures |Picked(xs, f)| < |xs|
    decreases |xs|
  {
    if i > 0 {
      PickedProper(xs[1..], f, i - 1);
    }
  }

  /** Consuming one more element at the front. */
  lemma PickedSnoc<T>(xs: seq<T>, lm: nat, lm': nat, f: T -> bool)
    requires lm < |xs| && lm' == lm + 1
    ensures Picked(xs[..lm'], f) == Picked(xs[..lm], f) + Single(xs[lm], f)
  {
    assert xs[..lm'] == xs[..lm] + [xs[lm]];
    PickedAppend(xs[..lm], [xs[lm]], f);
    assert [xs[lm]][1..] == [];
  }

  /** Consuming one more element at the back. */
  lemma PickedCons<T>(xs: seq<T>, rm1': nat, rm1: nat, f: T -> bool)
    requires rm1' < |xs| && rm1 == rm1' + 1
    ensures Picked(xs[rm1'..], f) == Single(xs[rm1'], f) + Picked(xs[rm1..], f)
  {
    assert xs[rm1'..][1..] == xs[rm1..];
  }

  /** The order of the cursors.  `rr1 >= 1` is the source's `rr` being a
      valid unsigned index. */
  ghost predicate Bounds<T>(orig: seq<T>, out: seq<T>, ll: nat, lm: nat, rm1: nat, rr1: nat) {
    && |out| == |orig|
    && ll <= lm <= rm1 <= rr1 <= |orig|
    && 1 <= rr1
  }

  /** The unconsumed middle is untouched. */
  ghost predicate Middle<T>(orig: seq<T>, out: seq<T>, lm: nat, rm1: nat)
    requires lm <= rm1 <= |out| && rm1 <= |orig|
  {
    out[lm..rm1] == orig[lm..rm1]
  }

  /** Everything in `out[lo..hi]` satisfies `f`. */
  ghost predicate All<T>(out: seq<T>, lo: nat, hi: nat, f: T -> bool)
    requires lo <= hi <= |out|
  {
    forall i | lo <= i < hi :: f(out[i])
  }

  /** `out[lo..hi]` holds, as a bag, the elements of the consumed ends
      `orig[..lm]` and `orig[rm1..]` that satisfy `f`. */
  ghost predicate Bag<T>(orig: seq<T>, out: seq<T>, lo: nat, hi: nat, lm: nat, rm1: nat, f: T -> bool)
    requires lo <= hi <= |out|
    requires lm <= rm1 <= |orig|
  {
    multiset(out[lo..hi]) == Picked(orig[..lm], f) + Picked(orig[rm1..], f)
  }

  /** The state between the steps of `split`: the front `out[..ll]` and the
      back `out[rr1..]` are the output so far, taken from the consumed ends
      `orig[..lm]` and `orig[rm1..]`. */
  ghost predicate Partitioned<T>(orig: seq<T>, out: seq<T>, left: T -> bool, right: T -> bool,
                                 ll: nat, lm: nat, rm1: nat, rr1: nat)
  {
    && Bounds(orig, out, ll, lm, rm1, rr1)
    && Middle(orig, out, lm, rm1)
    && All(out, 0, ll, left)
    && All(out, rr1, |out|, right)
    && Bag(orig, out, 0, ll, lm, rm1, left)
    && Bag(orig, out, rr1, |out|, lm, rm1, right)
  }

  /** The criteria never both hold. */
  ghost predicate Exclusive<T>(orig: seq<T>, left: T -> bool, right: T -> bool) {
    forall i | 0 <= i < |orig| :: !(left(orig[i]) && right(orig[i]))
  }

  // Slices of updated sequences.

  lemma SliceUpdateOutside<T>(a: seq<T>, a': seq<T>, j: nat, x: T, lo: nat, hi: nat)
    requires lo <= hi <= |a| && j < |a| && (j < lo || hi <= j)
    requires a' == a[j := x]
    ensures a'[lo..hi] == a[lo..hi]
  {
  }

  lemma SliceUpdateLast<T>(a: seq<T>, a': seq<T>, j: nat, j': nat, x: T, lo: nat)
    requires lo <= j < |a|
    requires a' == a[j := x] && j' == j + 1
    ensures a'[lo..j'] == a[lo..j] + [x]
  {
  }

  lemma SliceUpdateFirst<T>(a: seq<T>, a': seq<T>, j: nat, j1: nat, x: T, hi: nat)
    requires j < hi <= |a|
    requires a' == a[j := x] && j1 == j + 1
    ensures a'[j..hi] == [x] + a[j1..hi]
  {
  }

  /** Agreement on a range carries over to any range inside it. */
  lemma SliceInside<T>(a: seq<T>, b: seq<T>, lo: nat, hi: nat, lo': nat, hi': nat)
    requires lo <= lo' <= hi' <= hi <= |a| && hi <= |b|
    requires a[lo..hi] == b[lo..hi]
    ensures a[lo'..hi'] == b[lo'..hi']
  {
    forall k | lo' <= k < hi'
      ensures a[k] == b[k]
    {
      assert a[k] == a[lo..hi][k - lo];
      assert b[k] == b[lo..hi][k - lo];
    }
  }

  /** The middle shrinks and stays untouched. */
  lemma MiddleKept<T>(orig: seq<T>, out: seq<T>, out': seq<T>, lo: nat, hi: nat, lo': nat, hi': nat)
    requires lo <= lo' <= hi' <= hi <= |out| && hi <= |orig| && hi' <= |out'|
    requires Middle(orig, out, lo, hi)
    requires out'[lo'..hi'] == out[lo'..hi']
    ensures Middle(orig, out', lo', hi')
  {
    SliceInside(out, orig, lo, hi, lo', hi');
  }

  /** The unconsumed middle still holds the original elements. */
  lemma Untouched<T>(orig: seq<T>, out: seq<T>, lm: nat, rm1: nat, i: nat)
    requires lm <= i < rm1 <= |out| && rm1 <= |orig|
    requires Middle(orig, out, lm, rm1)
    ensures out[i] == orig[i]
  {
    assert out[i] == out[lm..rm1][i - lm];
  }

  // The output runs.

  lemma AllOutside<T>(out: seq<T>, out': seq<T>, lo: nat, hi: nat, f: T -> bool, j: nat, x: T)
    requires lo <= hi <= |out| && j < |out| && (j < lo || hi <= j)
    requires out' == out[j := x]
    requires All(out, lo, hi, f)
    ensures All(out', lo, hi, f)
  {
  }

  lemma AllGrowUp<T>(out: seq<T>, out': seq<T>, lo: nat, hi: nat, hi': nat, f: T -> bool, x: T)
    requires lo <= hi < |out| && f(x)
    requires out' == out[hi := x] && hi' == hi + 1
    requires All(out, lo, hi, f)
    ensures All(out', lo, hi', f)
  {
  }

  lemma AllGrowDown<T>(out: seq<T>, out': seq<T>, lo': nat, lo: nat, hi: nat, f: T -> bool, x: T)
    requires lo == lo' + 1 && lo <= hi <= |out| && f(x)
    requires out' == out[lo' := x]
    requires All(out, lo, hi, f)
    ensures All(out', lo', hi, f)
  {
  }

  /** Consuming the front element `orig[lm]`, adding it to `out[lo..hi]`
      when it satisfies `f`. */
  lemma BagFront<T>(orig: seq<T>, out: seq<T>, out': seq<T>, lo: nat, hi: nat, hi': nat,
                    lm: nat, lm': nat, rm1: nat, f: T -> bool)
    requires lo <= hi <= |out| && lo <= hi' <= |out'| && lm < rm1 <= |orig| && lm' == lm + 1
    requires Bag(orig, out, lo, hi, lm, rm1, f)
    requires multiset(out'[lo..hi']) == multiset(out[lo..hi]) + Single(orig[lm], f)
    ensures Bag(orig, out', lo, hi', lm', rm1, f)
  {
    PickedSnoc(orig, lm, lm', f);
  }

  /** Consuming the back element `orig[rm1']`, adding it to `out[lo..hi]`
      when it satisfies `f`. */
  lemma BagBack<T>(orig: seq<T>, out: seq<T>, out': seq<T>, lo: nat, lo': nat, hi: nat, hi': nat,
                   lm: nat, rm1': nat, rm1: nat, f: T -> bool)
    requires lo <= hi <= |out| && lo' <= hi' <= |out'| && lm <= rm1' && rm1 == rm1' + 1 <= |orig|
    requires Bag(orig, out, lo, hi, lm, rm1, f)
    requires multiset(out'[lo'..hi']) == multiset(out[lo..hi]) + Single(orig[rm1'], f)
    ensures Bag(orig, out', lo', hi', lm, rm1', f)
  {
    PickedCons(orig, rm1', rm1, f);
  }

  /** Consuming both ends at once. */
  lemma BagBoth<T>(orig: seq<T>, out: seq<T>, out': seq<T>, lo: nat, hi: nat, lo': nat, hi': nat,
                   lm: nat, lm': nat, rm1': nat, rm1: nat, f: T -> bool)
    requires lo <= hi <= |out| && lo' <= hi' <= |out'|
    requires lm' == lm + 1 && lm' <= rm1' && rm1 == rm1' + 1 <= |orig|
    requires Bag(orig, out, lo, hi, lm, rm1, f)
    requires multiset(out'[lo'..hi']) == multiset(out[lo..hi]) + Single(orig[lm], f) + Single(orig[rm1'], f)
    ensures Bag(orig, out', lo', hi', lm', rm1', f)
  {
    PickedSnoc(orig, lm, lm', f);
    PickedCons(orig, rm1', rm1, f);
  }

  // The steps of the two scans and of the exchange.

  /** The front scan copies a left element to the front. */
  lemma FrontKeep<T>(orig: seq<T>, out: seq<T>, left: T -> bool, right: T -> bool,
                     ll: nat, lm: nat, rm1: nat, rr1: nat, out': seq<T>, ll': nat, lm': nat)
    requires Partitioned(orig, out, left, right, ll, lm, rm1, rr1)
    requires lm < rm1 && left(out[lm]) && !right(out[lm])
    requires out' == out[ll := out[lm]] && ll' == ll + 1 && lm' == lm + 1
    ensures Partitioned(orig, out', left, right, ll', lm', rm1, rr1)
  {
    var x := out[lm];
    Untouched(orig, out, lm, rm1, lm);
    SliceUpdateOutside(out, out', ll, x, lm', rm1);
    MiddleKept(orig, out, out', lm, rm1, lm', rm1);
    AllGrowUp(out, out', 0, ll, ll', left, x);
    AllOutside(out, out', rr1, |out|, right, ll, x);
    SliceUpdateLast(out, out', ll, ll', x, 0);
    BagFront(orig, out, out', 0, ll, ll', lm, lm', rm1, left);
    SliceUpdateOutside(out, out', ll, x, rr1, |out|);
    BagFront(orig, out, out', rr1, |out|, |out'|, lm, lm', rm1, right);
  }

  /** The front scan drops an element that is neither left nor right. */
  lemma FrontDrop<T>(orig: seq<T>, out: seq<T>, left: T -> bool, right: T -> bool,
                     ll: nat, lm: nat, rm1: nat, rr1: nat, lm': nat)
    requires Partitioned(orig, out, left, right, ll, lm, rm1, rr1)
    requires lm < rm1 && !left(out[lm]) && !right(out[lm])
    requires lm' == lm + 1
    ensures Partitioned(orig, out, left, right, ll, lm', rm1, rr1)
  {
    Untouched(orig, out, lm, rm1, lm);
    MiddleKept(orig, out, out, lm, rm1, lm', rm1);
    BagFront(orig, out, out, 0, ll, ll, lm, lm', rm1, left);
    BagFront(orig, out, out, rr1, |out|, |out|, lm, lm', rm1, right);
  }

  /** Some element is not right, so the right elements consumed so far
      are fewer than all of them. */
  lemma RightCountBound<T>(orig: seq<T>, right: T -> bool, lm: nat, rm1: nat, w: nat)
    requires lm <= rm1 <= |orig|
    requires w < |orig| && !right(orig[w])
    ensures |Picked(orig[..lm], right)| + |Picked(orig[rm1..], right)| < |orig|
  {
    var mid := orig[lm..rm1];
    assert orig == orig[..lm] + mid + orig[rm1..];
    PickedAppend(orig[..lm] + mid, orig[rm1..], right);
    PickedAppend(orig[..lm], mid, right);
    PickedProper(orig, right, w);
  }

  /** The back has room for one more right element: otherwise every
      element would be right. */
  lemma RoomAtBack<T>(orig: seq<T>, out: seq<T>, right: T -> bool,
                      ll: nat, lm: nat, rm1': nat, rm1: nat, rr1: nat, w: nat)
    requires Bounds(orig, out, ll, lm, rm1, rr1) && lm <= rm1' && rm1 == rm1' + 1
    requires Bag(orig, out, rr1, |out|, lm, rm1, right)
    requires w < |orig| && !right(orig[w])
    requires right(orig[rm1'])
    ensures rr1 >= 2
  {
    RightCountBound(orig, right, lm, rm1', w);
    PickedCons(orig, rm1', rm1, right);
    assert |multiset(out[rr1..|out|])| == |orig| - rr1;
  }

  /** The back scan copies a right element to the back. */
  lemma BackKeep<T>(orig: seq<T>, out: seq<T>, left: T -> bool, right: T -> bool,
                    ll: nat, lm: nat, rm1: nat, rr1: nat, out': seq<T>, rm1': nat, rr1': nat, w: nat)
    requires Partitioned(orig, out, left, right, ll, lm, rm1, rr1)
    requires w < |orig| && !right(orig[w])
    requires lm <= rm1' && rm1 == rm1' + 1 && rr1 == rr1' + 1
    requires !left(out[rm1']) && right(out[rm1'])
    requires out' == out[rr1' := out[rm1']]
    ensures Partitioned(orig, out', left, right, ll, lm, rm1', rr1')
  {
    var x := out[rm1'];
    Untouched(orig, out, lm, rm1, rm1');
    RoomAtBack(orig, out, right, ll, lm, rm1', rm1, rr1, w);
    SliceUpdateOutside(out, out', rr1', x, lm, rm1');
    MiddleKept(orig, out, out', lm, rm1, lm, rm1');
    AllOutside(out, out', 0, ll, left, rr1', x);
    AllGrowDown(out, out', rr1', rr1, |out|, right, x);
    SliceUpdateOutside(out, out', rr1', x, 0, ll);
    BagBack(orig, out, out', 0, 0, ll, ll, lm, rm1', rm1, left);
    SliceUpdateFirst(out, out', rr1', rr1, x, |out|);
    BagBack(orig, out, out', rr1, rr1', |out|, |out'|, lm, rm1', rm1, right);
  }

  /** The back scan drops an element that is neither left nor right. */
  lemma BackDrop<T>(orig: seq<T>, out: seq<T>, left: T -> bool, right: T -> bool,
                    ll: nat, lm: nat, rm1: nat, rr1: nat, rm1': nat)
    requires Partitioned(orig, out, left, right, ll, lm, rm1, rr1)
    requires lm <= rm1' && rm1 == rm1' + 1
    requires !left(out[rm1']) && !right(out[rm1'])
    ensures Partitioned(orig, out, left, right, ll, lm, rm1', rr1)
  {
    Untouched(orig, out, lm, rm1, rm1');
    MiddleKept(orig, out, out, lm, rm1, lm, rm1');
    BagBack(orig, out, out, 0, 0, ll, ll, lm, rm1', rm1, left);
    BagBack(orig, out, out, rr1, rr1, |out|, |out|, lm, rm1', rm1, right);
  }

  /** The exchange as seen from the front: the left element from the back
      end joins the front run. */
  lemma ExchangeFront<T>(orig: seq<T>, out: seq<T>, out': seq<T>, left: T -> bool,
                         ll: nat, ll': nat, lm: nat, lm': nat, rm1': nat, rm1: nat, rr1': nat, a: T, b: T)
    requires |out| == |orig| && ll <= lm && lm' == lm + 1 && lm' <= rm1' && rm1 == rm1' + 1 <= rr1' + 1 && rr1' < |orig|
    requires ll' == ll + 1 && a == orig[lm] && b == orig[rm1'] && !left(a) && left(b)
    requires All(out, 0, ll, left) && Bag(orig, out, 0, ll, lm, rm1, left)
    requires out' == out[ll := b][rr1' := a]
    ensures All(out', 0, ll', left) && Bag(orig, out', 0, ll', lm', rm1', left)
  {
    var mid := out[ll := b];
    AllGrowUp(out, mid, 0, ll, ll', left, b);
    AllOutside(mid, out', 0, ll', left, rr1', a);
    SliceUpdateLast(out, mid, ll, ll', b, 0);
    SliceUpdateOutside(mid, out', rr1', a, 0, ll');
    BagBoth(orig, out, out', 0, ll, 0, ll', lm, lm', rm1', rm1, left);
  }

  /** The exchange as seen from the back: the right element from the front
      end joins the back run. */
  lemma ExchangeBack<T>(orig: seq<T>, out: seq<T>, out': seq<T>, right: T -> bool,
                        ll: nat, lm: nat, lm': nat, rm1': nat, rm1: nat, rr1': nat, rr1: nat, a: T, b: T)
    requires |out| == |orig| && ll <= lm && lm' == lm + 1 && lm' <= rm1' && rm1 == rm1' + 1 <= rr1' + 1
    requires rr1 == rr1' + 1 <= |orig|
    requires a == orig[lm] && b == orig[rm1'] && right(a) && !right(b)
    requires All(out, rr1, |out|, right) && Bag(orig, out, rr1, |out|, lm, rm1, right)
    requires out' == out[ll := b][rr1' := a]
    ensures All(out', rr1', |out'|, right) && Bag(orig, out', rr1', |out'|, lm', rm1', right)
  {
    var mid := out[ll := b];
    AllOutside(out, mid, rr1, |out|, right, ll, b);
    AllGrowDown(mid, out', rr1', rr1, |out|, right, a);
    SliceUpdateOutside(out, mid, ll, b, rr1, |out|);
    SliceUpdateFirst(mid, out', rr1', rr1, a, |out|);
    BagBoth(orig, out, out', rr1, |out|, rr1', |out'|, lm, lm', rm1', rm1, right);
  }

  /** The exchange, when the front scan stopped at a right element and the
      back scan at a left one. */
  lemma Exchange<T>(orig: seq<T>, out: seq<T>, left: T -> bool, right: T -> bool,
                    ll: nat, lm: nat, rm1: nat, rr1: nat,
                    out': seq<T>, ll': nat, lm': nat, rm1': nat, rr1': nat)
    requires Partitioned(orig, out, left, right, ll, lm, rm1, rr1)
    requires Exclusive(orig, left, right)
    requires ll' == ll + 1 && lm' == lm + 1 && rm1 == rm1' + 1 && rr1 == rr1' + 1
    requires lm' < rm1 && right(out[lm]) && left(out[rm1'])
    requires out' == out[ll := out[rm1']][rr1' := out[lm]]
    ensures Partitioned(orig, out', left, right, ll', lm', rm1', rr1')
  {
    var a, b := out[lm], out[rm1'];
    Untouched(orig, out, lm, rm1, lm);
    Untouched(orig, out, lm, rm1, rm1');
    var mid := out[ll := b];
    SliceUpdateOutside(out, mid, ll, b, lm', rm1');
    SliceUpdateOutside(mid, out', rr1', a, lm', rm1');
    MiddleKept(orig, out, out', lm, rm1, lm', rm1');
    ExchangeFront(orig, out, out', left, ll, ll', lm, lm', rm1', rm1, rr1', a, b);
    ExchangeBack(orig, out, out', right, ll, lm, lm', rm1', rm1, rr1', rr1, a, b);
  }

  /** Before the first step nothing is consumed and nothing is output. */
  lemma Start<T>(orig: seq<T>, left: T -> bool, right: T -> bool)
    requires |orig| >= 1
    ensures Partitioned(orig, orig, left, right, 0, 0, |orig|, |orig|)
  {
    var n := |orig|;
    assert orig[n..] == [] && orig[..0] == [];
    assert orig[0..0] == [] && orig[n..n] == [];
  }

  /** The scans cannot stop at one and the same element: the front scan
      stops only at a right element and the back scan only at a left one. */
  lemma Meet<T>(orig: seq<T>, out: seq<T>, left: T -> bool, right: T -> bool,
                ll: nat, lm: nat, rm1: nat, rr1: nat)
    requires Partitioned(orig, out, left, right, ll, lm, rm1, rr1)
    requires Exclusive(orig, left, right)
    requires lm + 1 >= rm1
    requires lm < rm1 ==> right(out[lm]) && left(out[rm1 - 1])
    ensures lm == rm1
  {
    if lm < rm1 {
      Untouched(orig, out, lm, rm1, lm);
      assert false;
    }
  }

  /** Once every element is consumed, a run holds exactly the elements
      that satisfy its criterion. */
  lemma FinishBag<T>(orig: seq<T>, out: seq<T>, lo: nat, hi: nat, lm: nat, f: T -> bool)
    requires lo <= hi <= |out| && lm <= |orig|
    requires Bag(orig, out, lo, hi, lm, lm, f)
    ensures multiset(out[lo..hi]) == Picked(orig, f)
  {
    assert orig[..lm] + orig[lm..] == orig;
    PickedAppend(orig[..lm], orig[lm..], f);
  }

  /** Once every element is consumed, the front holds exactly the left
      elements. */
  lemma FinishFront<T>(orig: seq<T>, out: seq<T>, left: T -> bool, right: T -> bool,
                       ll: nat, lm: nat, rr1: nat)
    requires Partitioned(orig, out, left, right, ll, lm, lm, rr1)
    ensures forall i | 0 <= i < ll :: left(out[i])
    ensures multiset(out[..ll]) == Picked(orig, left)
  {
    FinishBag(orig, out, 0, ll, lm, left);
    assert out[..ll] == out[0..ll];
  }

  /** Once every element is consumed, the back holds exactly the right
      elements. */
  lemma FinishBack<T>(orig: seq<T>, out: seq<T>, left: T -> bool, right: T -> bool,
                      ll: nat, lm: nat, rr1: nat, r: nat)
    requires Partitioned(orig, out, left, right, ll, lm, lm, rr1)
    requires r == |orig| - rr1
    ensures ll + r <= |out|
    ensures forall i | |out| - r <= i < |out| :: right(out[i])
    ensures multiset(out[|out| - r..]) == Picked(orig, right)
  {
    FinishBag(orig, out, rr1, |out|, lm, right);
    assert out[|out| - r..] == out[rr1..|out|];
  }

  /** One step of the first inner loop: a left element is copied to the
      front, any other element that is not right is dropped. */
  method StepFront<T>(orig: seq<T>, out: seq<T>, left: T -> bool, right: T -> bool,
                      ll: nat, lm: nat, rm1: nat, rr1: nat)
    returns (out': seq<T>, ll': nat, lm': nat)
    requires Exclusive(orig, left, right)
    requires Partitioned(orig, out, left, right, ll, lm, rm1, rr1)
    requires lm < rm1 && !right(out[lm])
    ensures Partitioned(orig, out', left, right, ll', lm', rm1, rr1)
    ensures lm' == lm + 1
  {
    lm' := lm + 1;
    if left(out[lm]) {
      out' := out[ll := out[lm]];
      ll' := ll + 1;
      FrontKeep(orig, out, left, right, ll, lm, rm1, rr1, out', ll', lm');
    } else {
      out', ll' := out, ll;
      FrontDrop(orig, out, left, right, ll, lm, rm1, rr1, lm');
    }
  }

  /** The first inner loop of `split`: advances the front cursor past every
      element that is not right, copying the left ones to the front. */
  method ScanFront<T>(orig: seq<T>, out: seq<T>, left: T -> bool, right: T -> bool,
                      ll: nat, lm: nat, rm1: nat, rr1: nat)
    returns (out': seq<T>, ll': nat, lm': nat)
    requires Exclusive(orig, left, right)
    requires Partitioned(orig, out, left, right, ll, lm, rm1, rr1)
    ensures Partitioned(orig, out', left, right, ll', lm', rm1, rr1)
    ensures lm <= lm' && (lm' < rm1 ==> right(out'[lm']))
    decreases rm1 - lm
  {
    if lm < rm1 && !right(out[lm]) {
      var out1, ll1, lm1 := StepFront(orig, out, left, right, ll, lm, rm1, rr1);
      out', ll', lm' := ScanFront(orig, out1, left, right, ll1, lm1, rm1, rr1);
    } else {
      out', ll', lm' := out, ll, lm;
    }
  }

  /** One step of the second inner loop: a right element is copied to the
      back, any other element that is not left is dropped. */
  method StepBack<T>(orig: seq<T>, out: seq<T>, left: T -> bool, right: T -> bool,
                     ll: nat, lm: nat, rm1: nat, rr1: nat, ghost w: nat)
    returns (out': seq<T>, rm1': nat, rr1': nat)
    requires w < |orig| && !right(orig[w])
    requires Partitioned(orig, out, left, right, ll, lm, rm1, rr1)
    requires lm < rm1 && !left(out[rm1 - 1])
    ensures Partitioned(orig, out', left, right, ll, lm, rm1', rr1')
    ensures rm1' + 1 == rm1 && (lm < rm1' ==> out'[lm] == out[lm])
  {
    rm1' := rm1 - 1;
    if right(out[rm1']) {
      rr1' := rr1 - 1;
      out' := out[rr1' := out[rm1']];
      BackKeep(orig, out, left, right, ll, lm, rm1, rr1, out', rm1', rr1', w);
    } else {
      out', rr1' := out, rr1;
      BackDrop(orig, out, left, right, ll, lm, rm1, rr1, rm1');
    }
  }

  predicate BackStopped<T>(out: seq<T>, left: T -> bool, lm: nat, rm1: nat)
  {
    rm1 <= |out| && (lm < rm1 ==> left(out[rm1 - 1]))
  }

  /** The second inner loop of `split`: moves the back cursor down past
      every element that is not left, copying the right ones to the back.
      It runs with the front cursor at a right element, if any. */
  method ScanBack<T>(orig: seq<T>, out: seq<T>, left: T -> bool, right: T -> bool,
                     ll: nat, lm: nat, rm1: nat, rr1: nat, ghost w: nat)
    returns (out': seq<T>, rm1': nat, rr1': nat)
    requires w < |orig| && !right(orig[w])
    requires Partitioned(orig, out, left, right, ll, lm, rm1, rr1)
    requires lm < rm1 ==> right(out[lm])
    ensures Partitioned(orig, out', left, right, ll, lm, rm1', rr1')
    ensures rm1' <= rm1
    ensures lm < rm1' ==> right(out'[lm])
    ensures BackStopped(out', left, lm, rm1')
    decreases rm1
  {
    if lm < rm1 && !left(out[rm1 - 1]) {
      var out1, rm11, rr11 := StepBack(orig, out, left, right, ll, lm, rm1, rr1, w);
      out', rm1', rr1' := ScanBack(orig, out1, left, right, ll, lm, rm11, rr11, w);
    } else {
      out', rm1', rr1' := out, rm1, rr1;
    }
  }

  /** The rounds of `split` from some point on: scan from the front, scan
      from the back, and exchange, until the cursors meet. */
  method SplitFrom<T>(orig: seq<T>, out: seq<T>, left: T -> bool, right: T -> bool,
                      ll: nat, lm: nat, rm1: nat, rr1: nat, ghost w: nat)
    returns (out': seq<T>, ll': nat, lm': nat, rr1': nat)
    requires w < |orig| && !right(orig[w])
    requires Exclusive(orig, left, right)
    requires Partitioned(orig, out, left, right, ll, lm, rm1, rr1)
    ensures Partitioned(orig, out', left, right, ll', lm', lm', rr1')
    decreases rm1 - lm, 1
  {
    var out1, ll1, lm1 := ScanFront(orig, out, left, right, ll, lm, rm1, rr1);
    var out2, rm12, rr12 := ScanBack(orig, out1, left, right, ll1, lm1, rm1, rr1, w);
    if lm1 + 1 >= rm12 {
      Meet(orig, out2, left, right, ll1, lm1, rm12, rr12);
      out', ll', lm', rr1' := out2, ll1, lm1, rr12;
    } else {
      out', ll', lm', rr1' := ExchangeFrom(orig, out2, left, right, ll1, lm1, rm12, rr12, w);
    }
  }

  /** The exchange that ends a round, and the rounds after it: the right
      element under the front cursor and the left element under the back
      cursor are written to the two ends, and every cursor moves. */
  method ExchangeFrom<T>(orig: seq<T>, out: seq<T>, left: T -> bool, right: T -> bool,
                         ll: nat, lm: nat, rm1: nat, rr1: nat, ghost w: nat)
    returns (out': seq<T>, ll': nat, lm': nat, rr1': nat)
    requires w < |orig| && !right(orig[w])
    requires Exclusive(orig, left, right)
    requires Partitioned(orig, out, left, right, ll, lm, rm1, rr1)
    requires lm + 1 < rm1 && right(out[lm]) && left(out[rm1 - 1])
    ensures Partitioned(orig, out', left, right, ll', lm', lm', rr1')
    decreases rm1 - lm, 0
  {
    var rm, rr := rm1 - 1, rr1 - 1;
    var exchanged := out[ll := out[rm]][rr := out[lm]];
    var ll2, lm2 := ll + 1, lm + 1;
    Exchange(orig, out, left, right, ll, lm, rm1, rr1, exchanged, ll2, lm2, rm, rr);
    out', ll', lm', rr1' := SplitFrom(orig, exchanged, left, right, ll2, lm2, rm, rr, w);
  }

  /** Once every element is consumed, the two runs are the result of
      `split`. */
  lemma Finish<T>(orig: seq<T>, out: seq<T>, left: T -> bool, right: T -> bool,
                  ll: nat, lm: nat, rr1: nat, r: nat)
    requires Partitioned(orig, out, left, right, ll, lm, lm, rr1)
    requires r == |orig| - rr1
    ensures |out| == |orig| && ll + r <= |out|
    ensures forall i | 0 <= i < ll :: left(out[i])
    ensures forall i | |out| - r <= i < |out| :: right(out[i])
    ensures multiset(out[..ll]) == Picked(orig, left)
    ensures multiset(out[|out| - r..]) == Picked(orig, right)
  {
    FinishFront(orig, out, left, right, ll, lm, rr1);
    FinishBack(orig, out, left, right, ll, lm, rr1, r);
  }

  /** All rounds of `split`, from the start until the cursors meet, given
      an element that is not right. */
  method SplitWith<T>(indices: seq<T>, left: T -> bool, right: T -> bool, ghost w: nat)
    returns (out: seq<T>, ll: nat, r: nat)
    requires w < |indices| && !right(indices[w])
    requires Exclusive(indices, left, right)
    ensures |out| == |indices| && ll + r <= |out|
    ensures forall i | 0 <= i < ll :: left(out[i])
    ensures forall i | |out| - r <= i < |out| :: right(out[i])
    ensures multiset(out[..ll]) == Picked(indices, left)
    ensures multiset(out[|out| - r..]) == Picked(indices, right)
  {
    var n := |indices|;
    Start(indices, left, right);
    var lm: nat, rr1: nat;
    out, ll, lm, rr1 := SplitFrom(indices, indices, left, right, 0, 0, n, n, w);
    r := n - rr1;
    Finish(indices, out, left, right, ll, lm, rr1, r);
  }

  /** `split`: moves the elements meeting `left` to the front and those
      meeting `right` to the back, and returns how many of each there are.
      The source decrements its unsigned `rr` below 0 when every element
      meets `right`, which the precondition rules out. */
  method Split<T>(indices: seq<T>, left: T -> bool, right: T -> bool)
    returns (out: seq<T>, ll: nat, r: nat)
    requires |indices| >= 1
    requires Exclusive(indices, left, right)
    requires exists i | 0 <= i < |indices| :: !right(indices[i])
    ensures |out| == |indices| && ll + r <= |out|
    ensures forall i | 0 <= i < ll :: left(out[i])
    ensures forall i | |out| - r <= i < |out| :: right(out[i])
    ensures multiset(out[..ll]) == Picked(indices, left)
    ensures multiset(out[|out| - r..]) == Picked(indices, right)
  {
    ghost var w :| 0 <= w < |indices| && !right(indices[w]);
    out, ll, r := SplitWith(indices, left, right, w);
  }
}
