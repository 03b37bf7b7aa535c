/** The string logic of the parallel inverted index (`build_index` of
    `index_parallel`): the filter that finds the document starts, the body
    range of each document, and the normalisation that blanks out every
    byte that is not a letter before the bodies are split into tokens.  The
    text and the delimiter are bytes here, as in the source. */
module IndexParallel {
  import opened Wrappers
  import opened Ascii
  import opened Tokens
  import opened LetterRuns

  // ---------------------------------------------------------------------
  // The document starts

  /** `delim` occurs in `s` at `i`. */
  predicate MatchesAt(s: seq<Byte>, delim: seq<Byte>, i: nat) {
    i + |delim| <= |s| && s[i..i + |delim|] == delim
  }

  /** `s` ends, from `i` on, with a proper prefix of `delim`: the
      comparison at `i` runs off the end of `s` before it finds a
      difference. */
  predicate PartialAtEnd(s: seq<Byte>, delim: seq<Byte>, i: nat) {
    i <= |s| < i + |delim| && s[i..] == delim[..|s| - i]
  }

  /** What the closure of the start filter does at position `i`. */
  datatype Probe = Keep | Drop | OutOfBounds

  /** The comparison loop from `j` on: it stops at the first difference,
      indexes past the end of `s` when it gets there first, and keeps `i`
      when the whole delimiter matched. */
  function ProbeFrom(s: seq<Byte>, delim: seq<Byte>, i: nat, j: nat): Probe
    requires j <= |delim|
    decreases |delim| - j
  {
    if j == |delim| then Keep
    else if i + j >= |s| then OutOfBounds
    else if delim[j] != s[i + j] then Drop
    else ProbeFrom(s, delim, i, j + 1)
  }

  function ProbeAt(s: seq<Byte>, delim: seq<Byte>, i: nat): Probe {
    ProbeFrom(s, delim, i, 0)
  }

  lemma {:induction false} ProbeFromSpec(s: seq<Byte>, delim: seq<Byte>, i: nat, j: nat)
    requires j <= |delim| && i + j <= |s|
    requires forall k | 0 <= k < j :: s[i + k] == delim[k]
    ensures ProbeFrom(s, delim, i, j) == Keep <==> MatchesAt(s, delim, i)
    ensures ProbeFrom(s, delim, i, j) == OutOfBounds <==> PartialAtEnd(s, delim, i)
    decreases |delim| - j
  {
    if j == |delim| {
      assert s[i..i + |delim|] == delim;
    } else if i + j >= |s| {
      assert s[i..] == delim[..|s| - i];
    } else if delim[j] != s[i + j] {
      assert s[i..i + j + 1][j] == s[i + j];
      if i + |delim| <= |s| {
        assert s[i..i + |delim|][j] == s[i + j];
      } else {
        assert s[i..][j] == s[i + j];
      }
    } else {
      ProbeFromSpec(s, delim, i, j + 1);
    }
  }

  /** The closure keeps exactly the matches and runs off the end exactly at
      a partial match. */
  lemma ProbeSpec(s: seq<Byte>, delim: seq<Byte>, i: nat)
    requires i <= |s|
    ensures ProbeAt(s, delim, i) == Keep <==> MatchesAt(s, delim, i)
    ensures ProbeAt(s, delim, i) == OutOfBounds <==> PartialAtEnd(s, delim, i)
  {
    ProbeFromSpec(s, delim, i, 0);
  }

  /** The `filter_map` over the positions from `i` on, as written: `None`
      when any closure indexes past the end (the parallel iterator then
      panics), otherwise the kept positions in order. */
  function StartsFrom(s: seq<Byte>, delim: seq<Byte>, i: nat): Option<seq<nat>>
    decreases |s| - i
  {
    if i >= |s| then Some([])
    else
      match ProbeAt(s, delim, i)
      case OutOfBounds => None
      case Drop => StartsFrom(s, delim, i + 1)
      case Keep =>
        match StartsFrom(s, delim, i + 1)
        case None => None
        case Some(rest) => Some([i] + rest)
  }

  /** `starts` as written. */
  function Starts(s: seq<Byte>, delim: seq<Byte>): Option<seq<nat>> {
    StartsFrom(s, delim, 0)
  }

  /** The positions from `i` on where `delim` occurs, in order. */
  function MatchesFrom(s: seq<Byte>, delim: seq<Byte>, i: nat): (r: seq<nat>)
    decreases |s| - i
  {
    if i >= |s| then []
    else if MatchesAt(s, delim, i) then [i] + MatchesFrom(s, delim, i + 1)
    else MatchesFrom(s, delim, i + 1)
  }

  /** `starts` with the comparison guarded by the end of the text: all
      match positions, in order, with no failure. */
  function StartsGuarded(s: seq<Byte>, delim: seq<Byte>): seq<nat> {
    MatchesFrom(s, delim, 0)
  }

  predicate Increasing(xs: seq<nat>) {
    forall a, b | 0 <= a < b < |xs| :: xs[a] < xs[b]
  }

  /** The matches from `i` on: increasing, and exactly the positions at or
      after `i` below `|s|` where `delim` occurs. */
  lemma {:induction false} MatchesFromSpec(s: seq<Byte>, delim: seq<Byte>, i: nat)
    ensures Increasing(MatchesFrom(s, delim, i))
    ensures forall p: nat :: p in MatchesFrom(s, delim, i) <==> i <= p < |s| && MatchesAt(s, delim, p)
    decreases |s| - i
  {
    if i < |s| {
      MatchesFromSpec(s, delim, i + 1);
      var rest := MatchesFrom(s, delim, i + 1);
      if MatchesAt(s, delim, i) {
        var r := [i] + rest;
        forall a, b | 0 <= a < b < |r|
          ensures r[a] < r[b]
        {
          assert r[b] == rest[b - 1] && r[b] in rest;
          if a > 0 {
            assert r[a] == rest[a - 1];
          }
        }
      }
    }
  }

  /** The filter as written fails exactly when some position starts a
      partial match at the end of the text, and otherwise finds all
      matches. */
  lemma {:induction false} StartsFromSpec(s: seq<Byte>, delim: seq<Byte>, i: nat)
    ensures StartsFrom(s, delim, i).None? <==> exists p | i <= p < |s| :: PartialAtEnd(s, delim, p)
    ensures StartsFrom(s, delim, i).Some? ==> StartsFrom(s, delim, i).value == MatchesFrom(s, delim, i)
    decreases |s| - i
  {
    if i < |s| {
      ProbeSpec(s, delim, i);
      StartsFromSpec(s, delim, i + 1);
      if StartsFrom(s, delim, i).None? && !PartialAtEnd(s, delim, i) {
        var p :| i + 1 <= p < |s| && PartialAtEnd(s, delim, p);
      }
    }
  }

  /** `starts` as written panics exactly at a partial match at the end of
      the text; otherwise it is the increasing list of all matches. */
  lemma StartsSpec(s: seq<Byte>, delim: seq<Byte>)
    ensures Starts(s, delim).None? <==> exists p | 0 <= p < |s| :: PartialAtEnd(s, delim, p)
    ensures Starts(s, delim).Some? ==>
              && Increasing(Starts(s, delim).value)
              && forall p: nat :: p in Starts(s, delim).value <==> p < |s| && MatchesAt(s, delim, p)
  {
    StartsFromSpec(s, delim, 0);
    MatchesFromSpec(s, delim, 0);
  }

  /** A text that ends with the first byte of the delimiter makes the
      filter as written fail, where the guarded one finds the one match. */
  lemma PartialMatchPanics()
    ensures Starts([1, 2, 1], [1, 2]) == None
    ensures StartsGuarded([1, 2, 1], [1, 2]) == [0]
  {
    var s: seq<Byte> := [1, 2, 1];
    var delim: seq<Byte> := [1, 2];
    assert PartialAtEnd(s, delim, 2);
    StartsSpec(s, delim);
    assert MatchesAt(s, delim, 0);
    assert !MatchesAt(s, delim, 1);
    assert !MatchesAt(s, delim, 2);
  }

  /** The guarded filter is the increasing list of all matches; with an
      empty delimiter every position is a start. */
  lemma StartsGuardedSpec(s: seq<Byte>, delim: seq<Byte>)
    ensures Increasing(StartsGuarded(s, delim))
    ensures forall p: nat :: p in StartsGuarded(s, delim) <==> p < |s| && MatchesAt(s, delim, p)
    ensures |delim| == 0 ==> StartsGuarded(s, delim) == seq(|s|, p => p)
  {
    MatchesFromSpec(s, delim, 0);
    if |delim| == 0 {
      EveryPositionMatches(s, delim, 0);
    }
  }

  lemma {:induction false} EveryPositionMatches(s: seq<Byte>, delim: seq<Byte>, i: nat)
    requires |delim| == 0 && i <= |s|
    ensures MatchesFrom(s, delim, i) == seq(|s| - i, p => i + p)
    decreases |s| - i
  {
    if i < |s| {
      EveryPositionMatches(s, delim, i + 1);
      assert s[i..i] == delim;
    }
  }

  // ---------------------------------------------------------------------
  // The document ranges

  /** The body of document `k`: from just after its start to the next
      start, or to the end of the text for the last; `None` when the slice
      is out of order or out of bounds, which panics. */
  function DocRange(n: nat, m: nat, starts: seq<nat>, k: nat): Option<(nat, nat)>
    requires k < |starts|
  {
    var start := starts[k] + m;
    var end := if k == |starts| - 1 then n else starts[k + 1];
    if start <= end <= n then Some((start, end)) else None
  }

  /** The ranges of all documents, or `None` when slicing any of them
      panics. */
  function DocRanges(n: nat, m: nat, starts: seq<nat>): (r: Option<seq<(nat, nat)>>)
    ensures r.Some? ==> |r.value| == |starts|
  {
    if forall k | 0 <= k < |starts| :: DocRange(n, m, starts, k).Some?
    then Some(seq(|starts|, k requires 0 <= k < |starts| => DocRange(n, m, starts, k).value))
    else None
  }

  /** With every start followed by a whole delimiter, slicing fails
      exactly when a start lies inside the delimiter of the one before. */
  lemma DocRangesFail(n: nat, m: nat, st: seq<nat>)
    requires forall k | 0 <= k < |st| :: st[k] + m <= n
    ensures DocRanges(n, m, st).None? <==> exists k | 0 <= k < |st| - 1 :: st[k + 1] < st[k] + m
  {
    if DocRanges(n, m, st).None? {
      var k :| 0 <= k < |st| && DocRange(n, m, st, k).None?;
      assert k < |st| - 1 && st[k + 1] < st[k] + m;
    } else {
      forall k | 0 <= k < |st| - 1
        ensures st[k] + m <= st[k + 1]
      {
        assert DocRange(n, m, st, k).Some?;
      }
    }
  }

  /** Each body follows its delimiter and ends where the next document
      starts, the last at the end of the text. */
  lemma DocRangesShape(n: nat, m: nat, st: seq<nat>)
    requires DocRanges(n, m, st).Some?
    ensures forall k | 0 <= k < |st| :: DocRanges(n, m, st).value[k].0 <= DocRanges(n, m, st).value[k].1 <= n
    ensures forall k | 0 <= k < |st| :: DocRanges(n, m, st).value[k].0 == st[k] + m
    ensures forall k | 0 <= k < |st| - 1 :: DocRanges(n, m, st).value[k].1 == st[k + 1]
    ensures |st| > 0 ==> DocRanges(n, m, st).value[|st| - 1].1 == n
  {
  }

  /** No match starts between consecutive matches. */
  lemma NoMatchBetween(s: seq<Byte>, delim: seq<Byte>, k: nat, j: nat)
    requires k < |StartsGuarded(s, delim)|
    requires StartsGuarded(s, delim)[k] < j < |s|
    requires k + 1 < |StartsGuarded(s, delim)| ==> j < StartsGuarded(s, delim)[k + 1]
    ensures !MatchesAt(s, delim, j)
  {
    StartsGuardedSpec(s, delim);
  }

  /** The ranges of the matches of `delim` in `s` fail exactly when two
      matches overlap. */
  lemma DocRangesOverlap(s: seq<Byte>, delim: seq<Byte>)
    ensures var st := StartsGuarded(s, delim);
            DocRanges(|s|, |delim|, st).None? <==> exists k | 0 <= k < |st| - 1 :: st[k + 1] < st[k] + |delim|
  {
    var st := StartsGuarded(s, delim);
    StartsGuardedSpec(s, delim);
    assert forall k | 0 <= k < |st| :: st[k] in st;
    DocRangesFail(|s|, |delim|, st);
  }

  /** Otherwise each body follows its delimiter and ends where the next
      document starts, the last at the end of the text. */
  lemma DocRangesTile(s: seq<Byte>, delim: seq<Byte>)
    requires DocRanges(|s|, |delim|, StartsGuarded(s, delim)).Some?
    ensures var st := StartsGuarded(s, delim);
            var r := DocRanges(|s|, |delim|, st).value;
            && (forall k | 0 <= k < |st| :: r[k].0 == st[k] + |delim| && MatchesAt(s, delim, st[k]))
            && (forall k | 0 <= k < |st| - 1 :: r[k].1 == st[k + 1])
            && (|st| > 0 ==> r[|st| - 1].1 == |s|)
  {
    var st := StartsGuarded(s, delim);
    StartsGuardedSpec(s, delim);
    assert forall k | 0 <= k < |st| :: st[k] in st;
    DocRangesShape(|s|, |delim|, st);
  }

  /** No body holds a match of a non-empty delimiter. */
  lemma DocBodiesHoldNoMatch(s: seq<Byte>, delim: seq<Byte>)
    requires |delim| > 0
    requires DocRanges(|s|, |delim|, StartsGuarded(s, delim)).Some?
    ensures var st := StartsGuarded(s, delim);
            var r := DocRanges(|s|, |delim|, st).value;
            forall k, j | 0 <= k < |st| && r[k].0 <= j < r[k].1 :: !MatchesAt(s, delim, j)
  {
    var st := StartsGuarded(s, delim);
    var r := DocRanges(|s|, |delim|, st).value;
    DocRangesShape(|s|, |delim|, st);
    forall k, j | 0 <= k < |st| && r[k].0 <= j < r[k].1
      ensures !MatchesAt(s, delim, j)
    {
      NoMatchBetween(s, delim, k, j);
    }
  }

  /** The starts, then the ranges, as written: `None` when either step
      panics. */
  function DocumentRanges(s: seq<Byte>, delim: seq<Byte>): Option<seq<(nat, nat)>> {
    match Starts(s, delim)
    case None => None
    case Some(st) => DocRanges(|s|, |delim|, st)
  }

  /** The ranges as written are the ranges of all matches whenever no
      partial match sits at the end of the text. */
  lemma DocumentRangesSpec(s: seq<Byte>, delim: seq<Byte>)
    ensures (exists p | 0 <= p < |s| :: PartialAtEnd(s, delim, p)) ==> DocumentRanges(s, delim).None?
    ensures (forall p | 0 <= p < |s| :: !PartialAtEnd(s, delim, p)) ==>
              DocumentRanges(s, delim) == DocRanges(|s|, |delim|, StartsGuarded(s, delim))
  {
    StartsFromSpec(s, delim, 0);
  }

  // ---------------------------------------------------------------------
  // Normalisation and tokens

  /** The byte as a `char`. */
  function AsChar(c: Byte): char {
    c as char
  }

  /** The text of a byte string. */
  function Chars(bs: seq<Byte>): (t: string)
    ensures |t| == |bs|
  {
    seq(|bs|, i requires 0 <= i < |bs| => AsChar(bs[i]))
  }

  /** The normalisation of one byte: an upper-case letter is lower-cased,
      a lower-case letter kept, anything else blanked to 0. */
  function NormalizeByte(c: Byte): (d: Byte)
    ensures d != 0 <==> IsAlpha(AsChar(c))
    ensures d != 0 ==> AsChar(d) == ToLower(AsChar(c))
  {
    if 65 <= c <= 90 then c + 32
    else if 97 <= c <= 122 then c
    else 0
  }

  function Normalize(body: seq<Byte>): (t: seq<Byte>)
    ensures |t| == |body|
  {
    seq(|body|, i requires 0 <= i < |body| => NormalizeByte(body[i]))
  }

  predicate IsZero(c: Byte) {
    c == 0
  }

  /** The tokens of a document: the maximal runs of non-zero normalised
      bytes. */
  function DocTokens(body: seq<Byte>): seq<seq<Byte>> {
    TokenSlices(Normalize(body), IsZero)
  }

  /** A run of letters, normalised, is the run lower-cased. */
  lemma NormalizedRun(body: seq<Byte>, a: nat, b: nat)
    requires a <= b <= |body|
    requires forall j | a <= j < b :: IsAlpha(AsChar(body[j]))
    ensures Chars(Normalize(body)[a..b]) == Lowered(Chars(body)[a..b])
  {
    forall j | 0 <= j < b - a
      ensures Chars(Normalize(body)[a..b])[j] == Lowered(Chars(body)[a..b])[j]
    {
      assert Normalize(body)[a..b][j] == NormalizeByte(body[a + j]);
      assert Chars(body)[a..b][j] == AsChar(body[a + j]);
    }
  }

  /** The tokens of a body are the words the serial index reads from it:
      its maximal runs of letters, lower-cased. */
  lemma DocTokensAreLetterWords(body: seq<Byte>)
    ensures |DocTokens(body)| == |LetterWords(Chars(body))|
    ensures forall k | 0 <= k < |DocTokens(body)| :: Chars(DocTokens(body)[k]) == LetterWords(Chars(body))[k]
  {
    var t := Normalize(body);
    var text := Chars(body);
    RunsFromSamePattern(t, IsZero, text, IsNonAlpha, 0);
    var runs := Runs(t, IsZero);
    RunsAreTokens(t, IsZero);
    var toks := DocTokens(body);
    var ws := LetterWords(text);
    forall k | 0 <= k < |toks|
      ensures Chars(toks[k]) == ws[k]
    {
      var (a, b) := runs[k];
      assert IsToken(t, IsZero, a, b);
      forall j | a <= j < b
        ensures IsAlpha(AsChar(body[j]))
      {
        assert !IsZero(t[j]) && t[j] == NormalizeByte(body[j]);
      }
      NormalizedRun(body, a, b);
    }
  }
}
