/** The serial word count: the text is normalised to lower-case ASCII
    letters and blanks, split at ASCII whitespace, and every distinct word
    is counted.  The source's hash map is modelled as an association list
    in first-occurrence order; what is promised about it does not depend on
    that order. */
module WordCounts {
  import opened Ascii
  import opened Tokens
  import opened AssocLists
  import opened LetterRuns

  /** The normalisation of one character: a letter becomes lower case, any
      other character a blank. */
  function NormalizeChar(c: char): (d: char)
    ensures IsAlpha(c) ==> d == ToLower(c) && IsLower(d)
    ensures !IsAlpha(c) ==> d == ' '
  {
    if IsUpper(c) then ToLower(c)
    else if IsLower(c) then c
    else ' '
  }

  /** `split_ascii_whitespace` separates at these five characters. */
  predicate IsAsciiWhitespace(c: char) {
    c == ' ' || c == '\t' || c == '\n' || c == '\U{000C}' || c == '\r'
  }

  /** The normalised text: as long as the input, with whitespace exactly
      where the input has no letter. */
  function Normalize(s: string): (t: string)
    ensures |t| == |s|
    ensures forall i | 0 <= i < |s| :: IsAsciiWhitespace(t[i]) == IsNonAlpha(s[i])
  {
    seq(|s|, i requires 0 <= i < |s| => NormalizeChar(s[i]))
  }

  /** The tokens of the normalised text. */
  function WordTokens(s: string): seq<string> {
    TokenSlices(Normalize(s), IsAsciiWhitespace)
  }

  /** On a run of letters, normalising is lower-casing. */
  lemma NormalizedLetters(s: string, a: nat, b: nat)
    requires a <= b <= |s|
    requires forall j | a <= j < b :: !IsNonAlpha(s[j])
    ensures Normalize(s)[a..b] == Lowered(s[a..b])
  {
    var t := Normalize(s);
    forall j | 0 <= j < b - a
      ensures t[a..b][j] == Lowered(s[a..b])[j]
    {
      assert t[a + j] == NormalizeChar(s[a + j]);
    }
  }

  /** The tokens are the maximal runs of ASCII letters of the input, left
      to right, each lower-cased. */
  lemma TokensAreLetterWords(s: string)
    ensures WordTokens(s) == LetterWords(s)
  {
    var t := Normalize(s);
    RunsFromSamePattern(t, IsAsciiWhitespace, s, IsNonAlpha, 0);
    var runs := Runs(s, IsNonAlpha);
    assert Runs(t, IsAsciiWhitespace) == runs;
    RunsAreTokens(s, IsNonAlpha);
    forall k | 0 <= k < |runs|
      ensures WordTokens(s)[k] == LetterWords(s)[k]
    {
      var (a, b) := runs[k];
      assert IsToken(s, IsNonAlpha, a, b);
      assert WordTokens(s)[k] == t[a..b];
      assert LetterWords(s)[k] == Lowered(s[a..b]);
      NormalizedLetters(s, a, b);
    }
  }

  // ---------------------------------------------------------------------
  // Counting into a map

  /** How often `w` occurs in `toks`. */
  function Occurrences(toks: seq<string>, w: string): nat
    decreases |toks|
  {
    if |toks| == 0 then 0
    else Occurrences(toks[..|toks| - 1], w) + (if toks[|toks| - 1] == w then 1 else 0)
  }

  /** The count stored for `w`, 0 if `w` is not a key. */
  function Lookup(counts: seq<(string, nat)>, w: string): nat
    decreases |counts|
  {
    if |counts| == 0 then 0
    else if counts[0].0 == w then counts[0].1
    else Lookup(counts[1..], w)
  }

  function Total(counts: seq<(string, nat)>): nat
    decreases |counts|
  {
    if |counts| == 0 then 0 else counts[0].1 + Total(counts[1..])
  }

  /** `entry(w).and_modify(+1).or_insert(1)`. */
  function Bump(counts: seq<(string, nat)>, w: string): (r: seq<(string, nat)>)
    decreases |counts|
  {
    if |counts| == 0 then [(w, 1)]
    else if counts[0].0 == w then [(w, counts[0].1 + 1)] + counts[1..]
    else [counts[0]] + Bump(counts[1..], w)
  }

  /** Bumping `w` makes it a key and keeps the keys distinct. */
  lemma {:induction false} BumpKeys(counts: seq<(string, nat)>, w: string)
    requires Distinct(counts)
    ensures Distinct(Bump(counts, w))
    ensures Keys(Bump(counts, w)) == Keys(counts) + {w}
    decreases |counts|
  {
    var r := Bump(counts, w);
    if |counts| == 0 {
      assert r[0].0 == w;
    } else {
      DistinctTail(counts);
      KeysCons(counts);
      KeysCons(r);
      if counts[0].0 == w {
        assert r[1..] == counts[1..];
      } else {
        BumpKeys(counts[1..], w);
        assert r[1..] == Bump(counts[1..], w);
        assert r == [counts[0]] + r[1..];
        DistinctCons(counts[0], r[1..]);
      }
    }
  }

  /** Bumping `w` adds one to its count and leaves every other count. */
  lemma {:induction false} BumpLookup(counts: seq<(string, nat)>, w: string, v: string)
    ensures Lookup(Bump(counts, w), v) == Lookup(counts, v) + (if v == w then 1 else 0)
    decreases |counts|
  {
    if |counts| > 0 && counts[0].0 != w {
      assert Bump(counts, w)[1..] == Bump(counts[1..], w);
      BumpLookup(counts[1..], w, v);
    } else if |counts| > 0 {
      assert Bump(counts, w)[1..] == counts[1..];
    }
  }

  /** Bumping adds one to the total. */
  lemma {:induction false} BumpTotal(counts: seq<(string, nat)>, w: string)
    ensures Total(Bump(counts, w)) == Total(counts) + 1
    decreases |counts|
  {
    if |counts| > 0 && counts[0].0 != w {
      assert Bump(counts, w)[1..] == Bump(counts[1..], w);
      BumpTotal(counts[1..], w);
    } else if |counts| > 0 {
      assert Bump(counts, w)[1..] == counts[1..];
    }
  }

  /** With distinct keys, every entry holds the count that lookup finds. */
  lemma {:induction false} LookupEntry(counts: seq<(string, nat)>, i: nat)
    requires Distinct(counts) && i < |counts|
    ensures Lookup(counts, counts[i].0) == counts[i].1
    decreases i
  {
    if i > 0 {
      assert counts[1..][i - 1] == counts[i];
      LookupEntry(counts[1..], i - 1);
    }
  }

  /** `word_counts`: the result is cleared, every token is counted, and the
      map is emptied into the result, one pair per distinct token. */
  method CountTokens(toks: seq<string>) returns (result: seq<(string, nat)>)
    ensures Distinct(result)
    ensures forall i | 0 <= i < |result| :: result[i].1 == Occurrences(toks, result[i].0) >= 1
    ensures forall w :: w in toks <==> w in Keys(result)
    ensures Total(result) == |toks|
  {
    result := [];
    for i := 0 to |toks|
      invariant Distinct(result)
      invariant forall w :: w in toks[..i] <==> w in Keys(result)
      invariant forall w :: Lookup(result, w) == Occurrences(toks[..i], w)
      invariant Total(result) == i
    {
      assert toks[..i + 1][..i] == toks[..i];
      assert toks[..i + 1] == toks[..i] + [toks[i]];
      BumpKeys(result, toks[i]);
      BumpTotal(result, toks[i]);
      forall w
        ensures Lookup(Bump(result, toks[i]), w) == Occurrences(toks[..i + 1], w)
      {
        BumpLookup(result, toks[i], w);
      }
      result := Bump(result, toks[i]);
    }
    assert toks[..|toks|] == toks;
    forall i | 0 <= i < |result|
      ensures result[i].1 == Occurrences(toks, result[i].0) >= 1
    {
      LookupEntry(result, i);
      OccursPositive(toks, result[i].0);
    }
  }

  /** A word of the list occurs at least once in it. */
  lemma {:induction false} OccursPositive(toks: seq<string>, w: string)
    requires w in toks
    ensures Occurrences(toks, w) >= 1
    decreases |toks|
  {
    if toks[|toks| - 1] != w {
      assert toks == toks[..|toks| - 1] + [toks[|toks| - 1]];
      OccursPositive(toks[..|toks| - 1], w);
    }
  }

  /** `word_counts`: one pair per distinct word of the normalised text,
      with its number of occurrences. */
  method WordCountsOf(s: string) returns (result: seq<(string, nat)>)
    ensures Distinct(result)
    ensures forall i | 0 <= i < |result| :: result[i].1 == Occurrences(WordTokens(s), result[i].0) >= 1
    ensures forall w :: w in WordTokens(s) <==> w in Keys(result)
    ensures Total(result) == |WordTokens(s)|
  {
    var text := Normalize(s);
    var toks := TokenSlices(text, IsAsciiWhitespace);
    result := CountTokens(toks);
  }
}
