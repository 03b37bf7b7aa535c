/** Ragged concatenation (`flatten`, `flatten_by_val`) from parlay's
    primitives. */
module Flatten {
  import opened SequenceOps

  /** The reference meaning of flattening: the inputs concatenated in order. */
  function Concat<T>(xs: seq<seq<T>>): seq<T>
    decreases |xs|
  {
    if |xs| == 0 then [] else Concat(xs[..|xs| - 1]) + xs[|xs| - 1]
  }

  /** The length of every input (the values `flatten` scans). */
  function Lengths<T>(xs: seq<seq<T>>): (r: seq<nat>)
    ensures |r| == |xs| && forall i | 0 <= i < |xs| :: r[i] == |xs[i]|
  {
    seq(|xs|, i requires 0 <= i < |xs| => |xs[i]|)
  }

  lemma ConcatPrefixStep<T>(xs: seq<seq<T>>, i: nat)
    requires i < |xs|
    ensures Concat(xs[..i + 1]) == Concat(xs[..i]) + xs[i]
    ensures Sum(Lengths(xs)[..i + 1]) == Sum(Lengths(xs)[..i]) + |xs[i]|
  {
    assert xs[..i + 1][..i] == xs[..i];
    SumPrefixStep(Lengths(xs), i);
  }

  /** The flattened length is the sum of the input lengths. */
  lemma {:induction false} ConcatLength<T>(xs: seq<seq<T>>)
    ensures |Concat(xs)| == Sum(Lengths(xs))
    decreases |xs|
  {
    if |xs| > 0 {
      var init := xs[..|xs| - 1];
      ConcatLength(init);
      assert Lengths(xs)[..|xs| - 1] == Lengths(init);
    }
  }

  /** Flattening distributes over concatenation of the collections. */
  lemma {:induction false} ConcatAppend<T>(xs: seq<seq<T>>, ys: seq<seq<T>>)
    ensures Concat(xs + ys) == Concat(xs) + Concat(ys)
    decreases |ys|
  {
    if |ys| == 0 {
      assert xs + ys == xs;
    } else {
      assert (xs + ys)[..|xs + ys| - 1] == xs + ys[..|ys| - 1];
      ConcatAppend(xs, ys[..|ys| - 1]);
    }
  }

  /** Flattening sources that are all empty gives an empty result. */
  lemma {:induction false} ConcatOfEmpties<T>(xs: seq<seq<T>>)
    requires forall i | 0 <= i < |xs| :: xs[i] == []
    ensures Concat(xs) == []
    decreases |xs|
  {
    if |xs| > 0 {
      ConcatOfEmpties(xs[..|xs| - 1]);
    }
  }

  /** The element-wise copy of one source into its output slice. */
  method CopyInto<T>(src: seq<T>, chunk: seq<T>) returns (out: seq<T>)
    requires |chunk| == |src|
    ensures out == src
  {
    out := chunk;
    for j := 0 to |src|
      invariant |out| == |src|
      invariant out[..j] == src[..j]
    {
      out := out[j := src[j]];
      assert out[..j + 1] == src[..j + 1];
    }
  }

  /** `flatten`: scans the input lengths into output offsets and the total
      length, allocates that many default-filled slots and copies input `i`
      into the slice starting at offset `i`.  The result is the inputs
      concatenated in order and its length is the scanned total. */
  method Flatten<T>(arr: seq<seq<T>>, default: T) returns (dest: seq<T>)
    ensures |dest| == Sum(Lengths(arr))
    ensures dest == Concat(arr)
  {
    var n := |arr|;
    var offsets, len := ScanInplace(Lengths(arr));
    dest := seq(len, _ => default);
    assert arr[..0] == [];
    assert Lengths(arr)[..0] == [];
    for i := 0 to n
      invariant |dest| == len
      invariant Sum(Lengths(arr)[..i]) <= len
      invariant dest[..Sum(Lengths(arr)[..i])] == Concat(arr[..i])
    {
      ConcatPrefixStep(arr, i);
      var lo := offsets[i];
      var hi := if i + 1 < n then offsets[i + 1] else len;
      assert hi == Sum(Lengths(arr)[..i + 1]) by {
        if i + 1 == n {
          assert Lengths(arr)[..i + 1] == Lengths(arr);
        }
      }
      var chunk := CopyInto(arr[i], dest[lo..hi]);
      assert (dest[..lo] + chunk + dest[hi..])[..hi] == dest[..lo] + chunk;
      dest := dest[..lo] + chunk + dest[hi..];
    }
    assert arr[..n] == arr;
    assert Lengths(arr)[..n] == Lengths(arr);
  }

  /** `flatten_by_val`: the same concatenation for owned inputs. */
  method FlattenByVal<T>(arr: seq<seq<T>>, default: T) returns (dest: seq<T>)
    ensures |dest| == Sum(Lengths(arr))
    ensures dest == Concat(arr)
  {
    dest := Flatten(arr, default);
  }
}
