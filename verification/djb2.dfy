/** The djb2 hash, h0 = 5381 and h' = 33 * h + c for every code c, on
    64-bit words with release-mode wrap-around.  It appears three times in
    the source: over bytes (`djb2_hash_char`), over the code points of a
    string (`djb2_hash_str`), and as the streaming `Djb2` hasher of the
    serial word count. */
module Djb2 {
  import opened Words
  import opened Ascii

  const Seed: U64 := 5381

  /** The djb2 recurrence from the state `h`: the reference meaning that the
      shift-and-add code below is proved to compute. */
  function HashFrom(h: U64, cs: seq<U64>): U64
    decreases |cs|
  {
    if |cs| == 0 then h else (33 * HashFrom(h, cs[..|cs| - 1]) + cs[|cs| - 1]) % WordLimit
  }

  /** One update exactly as the source writes it, `((h << 5) + h) + c` on
      `u64`/`usize`: the shift drops the bits pushed past bit 63 and both
      additions wrap. */
  function Step(h: U64, c: U64): U64 {
    var shifted := (h * 32) % WordLimit;
    var sum := (shifted + h) % WordLimit;
    (sum + c) % WordLimit
  }

  /** The shift-and-add update is the multiply-by-33 update modulo 2^64. */
  lemma StepIsMultiplyAdd(h: U64, c: U64)
    ensures Step(h, c) == (33 * h + c) % WordLimit
  {
    var q := (h * 32) / WordLimit;
    assert h * 32 == q * WordLimit + (h * 32) % WordLimit;
    var p := ((h * 32) % WordLimit + h) / WordLimit;
    assert (h * 32) % WordLimit + h == p * WordLimit + ((h * 32) % WordLimit + h) % WordLimit;
    assert 33 * h + c == (q + p) * WordLimit + ((h * 32) % WordLimit + h) % WordLimit + c;
  }

  /** Hashing in two pieces from the state after the first piece is hashing
      the concatenation: the streaming property of `Hasher::write`. */
  lemma {:induction false} HashFromAppend(h: U64, a: seq<U64>, b: seq<U64>)
    ensures HashFrom(HashFrom(h, a), b) == HashFrom(h, a + b)
    decreases |b|
  {
    if |b| > 0 {
      assert (a + b)[..|a + b| - 1] == a + b[..|b| - 1];
      assert (a + b)[|a + b| - 1] == b[|b| - 1];
      HashFromAppend(h, a, b[..|b| - 1]);
    } else {
      assert a + b == a;
    }
  }

  /** The code points of a string, `char as usize`. */
  function Codes(s: string): (cs: seq<U64>)
    ensures |cs| == |s|
    ensures forall i | 0 <= i < |s| :: cs[i] == s[i] as int
    ensures IsAsciiString(s) <==> forall i | 0 <= i < |cs| :: cs[i] < 128
    ensures IsAsciiString(s) ==> cs == AsciiBytes(s)
  {
    seq(|s|, i requires 0 <= i < |s| => s[i] as int)
  }

  /** `djb2_hash_char`: the hash of a byte slice. */
  method HashChar(input: seq<Byte>) returns (hash: U64)
    ensures hash == HashFrom(Seed, input)
    ensures |input| == 0 ==> hash == 5381
  {
    hash := Seed;
    for i := 0 to |input|
      invariant hash == HashFrom(Seed, input[..i])
    {
      StepIsMultiplyAdd(hash, input[i]);
      assert input[..i + 1][..i] == input[..i];
      hash := Step(hash, input[i]);
    }
    assert input[..|input|] == input;
  }

  /** `djb2_hash_str`: the hash of the code points of a string; on an ASCII
      string it is `djb2_hash_char` of the string's bytes. */
  method HashStr(input: string) returns (hash: U64)
    ensures hash == HashFrom(Seed, Codes(input))
    ensures IsAsciiString(input) ==> hash == HashFrom(Seed, AsciiBytes(input))
  {
    hash := Seed;
    ghost var cs := Codes(input);
    for i := 0 to |input|
      invariant hash == HashFrom(Seed, cs[..i])
    {
      StepIsMultiplyAdd(hash, input[i] as int);
      assert cs[..i + 1][..i] == cs[..i];
      hash := Step(hash, input[i] as int);
    }
    assert cs[..|input|] == cs;
    if IsAsciiString(input) {
      assert AsciiBytes(input) == cs;
    }
  }

  /** The `Djb2` hasher of the serial word count: a single 64-bit state. */
  datatype Hasher = Hasher(hash: U64)

  /** `Default::default`: the state starts at 5381, the hash of nothing
      written yet. */
  function Default(): (st: Hasher)
    ensures forall bytes: seq<Byte> :: HashFrom(st.hash, bytes) == HashFrom(Seed, bytes)
  {
    Hasher(Seed)
  }

  /** `Hasher::write`: folds the bytes into the state, one update per byte,
      so that writing in pieces is writing the whole. */
  method Write(st: Hasher, bytes: seq<Byte>) returns (st': Hasher)
    ensures Finish(st') == HashFrom(Finish(st), bytes)
  {
    var hash := st.hash;
    for i := 0 to |bytes|
      invariant hash == HashFrom(st.hash, bytes[..i])
    {
      StepIsMultiplyAdd(hash, bytes[i]);
      assert bytes[..i + 1][..i] == bytes[..i];
      hash := Step(hash, bytes[i]);
    }
    assert bytes[..|bytes|] == bytes;
    st' := Hasher(hash);
  }

  /** `Hasher::finish`: the state itself. */
  function Finish(st: Hasher): U64 {
    st.hash
  }

  /** What `BuildHasherDefault<Djb2>` does for each key: a fresh hasher,
      the key's bytes written in any number of pieces, then `finish`.  The
      result is the djb2 hash of all the bytes from 5381, the same value
      `djb2_hash_char` computes. */
  method HashPieces(pieces: seq<seq<Byte>>) returns (h: U64)
    ensures h == HashFrom(Seed, Joined(pieces))
    ensures |pieces| == 1 ==> h == HashFrom(Seed, pieces[0])
  {
    var st := Default();
    for k := 0 to |pieces|
      invariant Finish(st) == HashFrom(Seed, Joined(pieces[..k]))
    {
      st := Write(st, pieces[k]);
      HashFromAppend(Seed, Joined(pieces[..k]), pieces[k]);
      assert pieces[..k + 1][..k] == pieces[..k];
    }
    assert pieces[..|pieces|] == pieces;
    h := Finish(st);
    if |pieces| == 1 {
      assert pieces[..0] == [];
      assert Joined(pieces) == [] + pieces[0];
      assert [] + pieces[0] == pieces[0];
    }
  }

  /** The pieces written one after the other. */
  function Joined(pieces: seq<seq<Byte>>): seq<Byte>
    decreases |pieces|
  {
    if |pieces| == 0 then [] else Joined(pieces[..|pieces| - 1]) + pieces[|pieces| - 1]
  }
}
