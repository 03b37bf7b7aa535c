/** The serial inverted index.  `search` finds a delimiter; `build_index`
    cuts the text into documents at the delimiter, splits every document
    body into lower-cased alphabetic words, records for every word the
    documents it occurs in, and prints one line per word in sorted order.
    The source's `HashMap` is an association list here. */
module IndexSerial {
  import opened Wrappers
  import opened Ascii
  import opened Tokens
  import opened AssocLists
  import opened LetterRuns

  // ---------------------------------------------------------------------
  // search

  /** `delim` occurs in `input` at position `i`. */
  predicate MatchAt(input: string, delim: string, i: nat) {
    i + |delim| <= |input| && input[i..i + |delim|] == delim
  }

  /** The loop of `search` from candidate position `i`: the first match at
      or after `i`, or the out-of-bounds sentinel `|input|` when there is
      none. */
  function SearchFrom(input: string, delim: string, i: nat): (r: nat)
    requires 0 < |delim| <= |input| && i <= |input| - |delim| + 1
    ensures r == |input| || (i <= r && MatchAt(input, delim, r))
    ensures forall j | i <= j < r :: !MatchAt(input, delim, j)
    decreases |input| - i
  {
    if i == |input| - |delim| + 1 then |input|
    else if input[i..i + |delim|] == delim then i
    else SearchFrom(input, delim, i + 1)
  }

  /** `search`: `Some(0)` for an empty delimiter, `None` for a delimiter
      longer than the input, and otherwise the position of the first match,
      or `|input|` when there is none. */
  function Search(input: string, delim: string): (r: Option<nat>)
    ensures |delim| == 0 ==> r == Some(0)
    ensures 0 < |delim| && |input| < |delim| ==> r == None
    ensures 0 < |delim| <= |input| ==> r.Some? && r.value <= |input|
    ensures r.Some? && r.value < |input| ==> MatchAt(input, delim, r.value)
    ensures r.Some? ==> forall j | 0 <= j < r.value :: !MatchAt(input, delim, j)
  {
    if |delim| == 0 then Some(0)
    else if |delim| > |input| then None
    else Some(SearchFrom(input, delim, 0))
  }

  /** The search the comment on `search` refers to (C++ `std::search`): a
      delimiter longer than the input is simply not found, so the result is
      the sentinel `|input|` instead of `None`. */
  function SearchOrEnd(input: string, delim: string): (r: nat)
    ensures r <= |input|
    ensures r < |input| ==> MatchAt(input, delim, r)
    ensures forall j | 0 <= j < r :: !MatchAt(input, delim, j)
  {
    match Search(input, delim)
    case None => |input|
    case Some(i) => i
  }

  /** A match in a suffix of the text is a match in the text. */
  lemma MatchInSuffix(s: string, delim: string, b: nat, k: nat)
    requires b <= |s|
    ensures MatchAt(s[b..], delim, k) <==> MatchAt(s, delim, b + k)
  {
    if b + k + |delim| <= |s| {
      assert s[b..][k..k + |delim|] == s[b + k..b + k + |delim|];
    }
  }

  // ---------------------------------------------------------------------
  // Documents

  /** The document loop of `build_index` exactly as written, from a
      document that starts at `begin` (a match, or the end of the text):
      the body ranges of the documents, or `None` when the loop panics.
      The loop moves past a delimiter by `m`, the delimiter's length in
      bytes, although it indexes the text by characters; the slice
      `s[begin + m..]` panics when it starts past the end, and `unwrap`
      panics when `search` returns `None`. */
  function DocsFromAsWritten(s: string, delim: string, m: nat, begin: nat): Option<seq<(nat, nat)>>
    requires 0 < |delim| <= m && begin <= |s|
    requires begin < |s| ==> MatchAt(s, delim, begin)
    decreases |s| - begin
  {
    if begin == |s| then Some([])
    else if begin + m > |s| then None
    else
      match NextMatch(s, delim, begin + m)
      case None => None
      case Some(end) => Prepend((begin + m, end), DocsFromAsWritten(s, delim, m, end))
  }

  /** `search(&s[b..], ..).unwrap() + b` of the loop as written: the next
      match at or after `b` (or the end of the text), and `None`, the
      panic, exactly when fewer characters than the delimiter's remain. */
  function NextMatch(s: string, delim: string, b: nat): (r: Option<nat>)
    requires 0 < |delim| && b <= |s|
    ensures r.None? <==> |s| - b < |delim|
    ensures r.Some? ==> r.value == SearchOrEnd(s[b..], delim) + b
    ensures r.Some? ==> b <= r.value <= |s| && (r.value < |s| ==> MatchAt(s, delim, r.value))
  {
    match Search(s[b..], delim)
    case None => None
    case Some(k) => MatchInSuffix(s, delim, b, k); Some(k + b)
  }

  /** A body in front of the bodies that follow, unless the rest panicked. */
  function Prepend(body: (nat, nat), rest: Option<seq<(nat, nat)>>): Option<seq<(nat, nat)>> {
    match rest
    case None => None
    case Some(r) => Some([body] + r)
  }

  /** The document loop as written, with `m = doc_start.len()`: `None`
      when the text is shorter than the delimiter, or when the loop panics
      later on. */
  function DocumentsAsWritten(s: string, delim: string): Option<seq<(nat, nat)>>
    requires |delim| > 0
  {
    match Search(s, delim)
    case None => None
    case Some(b) => DocsFromAsWritten(s, delim, Utf8Len(delim), b)
  }

  /** The document loop with a search that reports a missing delimiter as
      the end of the text. */
  function DocsFrom(s: string, delim: string, begin: nat): seq<(nat, nat)>
    requires |delim| > 0 && begin <= |s|
    requires begin < |s| ==> MatchAt(s, delim, begin)
    decreases |s| - begin
  {
    if begin == |s| then []
    else
      var bodyStart := begin + |delim|;
      var k := SearchOrEnd(s[bodyStart..], delim);
      MatchInSuffix(s, delim, bodyStart, k);
      [(bodyStart, k + bodyStart)] + DocsFrom(s, delim, k + bodyStart)
  }

  /** The body ranges of the documents: each runs from just after a
      delimiter to the next delimiter or the end of the text. */
  function Documents(s: string, delim: string): seq<(nat, nat)>
    requires |delim| > 0
  {
    DocsFrom(s, delim, SearchOrEnd(s, delim))
  }

  /** One round of the document loop: the body after the match at `begin`
      runs to the next match or to the end of the text. */
  lemma DocsFromStep(s: string, delim: string, begin: nat, bodyStart: nat, end: nat)
    requires |delim| > 0 && begin < |s| && MatchAt(s, delim, begin)
    requires bodyStart == begin + |delim| && end == SearchOrEnd(s[bodyStart..], delim) + bodyStart
    ensures bodyStart <= end <= |s| && (end < |s| ==> MatchAt(s, delim, end))
    ensures forall j | bodyStart <= j < end :: !MatchAt(s, delim, j)
    ensures DocsFrom(s, delim, begin) == [(bodyStart, end)] + DocsFrom(s, delim, end)
  {
    MatchInSuffix(s, delim, bodyStart, end - bodyStart);
    forall j | bodyStart <= j < end
      ensures !MatchAt(s, delim, j)
    {
      MatchInSuffix(s, delim, bodyStart, j - bodyStart);
    }
  }

  /** One round of the document loop as written: it panics when the text
      after the match at `begin` has no room for a delimiter after skipping
      `m`, and otherwise records the body up to the next match or the end
      and goes on from there. */
  lemma AsWrittenStep(s: string, delim: string, m: nat, begin: nat, end: nat)
    requires 0 < |delim| <= m && begin < |s| && MatchAt(s, delim, begin)
    requires end <= |s| && (end < |s| ==> MatchAt(s, delim, end))
    requires begin + m <= |s| ==> end == SearchOrEnd(s[begin + m..], delim) + begin + m
    ensures |s| < begin + m + |delim| ==> DocsFromAsWritten(s, delim, m, begin) == None
    ensures begin + m + |delim| <= |s| ==>
              DocsFromAsWritten(s, delim, m, begin) == Prepend((begin + m, end), DocsFromAsWritten(s, delim, m, end))
  {
    if begin + m <= |s| {
      var r := NextMatch(s, delim, begin + m);
      if r.Some? {
        assert r.value == end;
        assert DocsFromAsWritten(s, delim, m, begin) == Prepend((begin + m, end), DocsFromAsWritten(s, delim, m, end));
      } else {
        assert DocsFromAsWritten(s, delim, m, begin) == None;
      }
    } else {
      assert DocsFromAsWritten(s, delim, m, begin) == None;
    }
  }

  /** `[b, e)` is a body the loop as written records: it starts `m` after
      a delimiter match, holds no match, and ends at a match or at the end
      of the text. */
  ghost predicate IsBodyAfter(s: string, delim: string, m: nat, b: nat, e: nat) {
    && m <= b <= e <= |s|
    && MatchAt(s, delim, b - m)
    && (forall j | b <= j < e :: !MatchAt(s, delim, j))
    && (e < |s| ==> MatchAt(s, delim, e))
  }

  /** Every range of `docs` is a body the loop as written records. */
  ghost predicate BodiesAfter(s: string, delim: string, m: nat, docs: seq<(nat, nat)>) {
    forall k | 0 <= k < |docs| :: IsBodyAfter(s, delim, m, docs[k].0, docs[k].1)
  }

  /** Whatever the delimiter's byte length, every body the loop as written
      records starts `m` after a match and runs to the next match at or
      after that point, or to the end of the text. */
  lemma {:induction false} AsWrittenBodies(s: string, delim: string, m: nat, begin: nat)
    requires 0 < |delim| <= m && begin <= |s|
    requires begin < |s| ==> MatchAt(s, delim, begin)
    ensures DocsFromAsWritten(s, delim, m, begin).Some? ==>
              BodiesAfter(s, delim, m, DocsFromAsWritten(s, delim, m, begin).value)
    decreases |s| - begin
  {
    if begin < |s| && begin + m + |delim| <= |s| {
      var b := begin + m;
      var end := SearchOrEnd(s[b..], delim) + b;
      AsWrittenStep(s, delim, m, begin, end);
      AsWrittenBodies(s, delim, m, end);
      var rest := DocsFromAsWritten(s, delim, m, end);
      if rest.Some? {
        forall j | b <= j < end
          ensures !MatchAt(s, delim, j)
        {
          MatchInSuffix(s, delim, b, j - b);
        }
        BodiesCons(s, delim, m, b, end, rest.value);
      }
    }
  }

  lemma BodiesCons(s: string, delim: string, m: nat, b: nat, e: nat, rest: seq<(nat, nat)>)
    requires IsBodyAfter(s, delim, m, b, e) && BodiesAfter(s, delim, m, rest)
    ensures BodiesAfter(s, delim, m, [(b, e)] + rest)
  {
    forall k | 0 <= k < |rest| + 1
      ensures IsBodyAfter(s, delim, m, ([(b, e)] + rest)[k].0, ([(b, e)] + rest)[k].1)
    {
      if k > 0 {
        assert ([(b, e)] + rest)[k] == rest[k - 1];
      }
    }
  }

  /** Where the loop as written skips exactly the delimiter's characters
      and does not panic, it finds the documents; it panics exactly when
      the last body is shorter than the delimiter. */
  lemma {:induction false} DocsFromAsWrittenAgrees(s: string, delim: string, begin: nat)
    requires |delim| > 0 && begin <= |s|
    requires begin < |s| ==> MatchAt(s, delim, begin)
    ensures DocsFromAsWritten(s, delim, |delim|, begin).Some? ==>
              DocsFromAsWritten(s, delim, |delim|, begin).value == DocsFrom(s, delim, begin)
    ensures DocsFromAsWritten(s, delim, |delim|, begin).None? <==>
              |DocsFrom(s, delim, begin)| > 0 && Last(DocsFrom(s, delim, begin)).0 + |delim| > |s|
    decreases |s| - begin
  {
    if begin < |s| {
      var bodyStart := begin + |delim|;
      var end := SearchOrEnd(s[bodyStart..], delim) + bodyStart;
      DocsFromStep(s, delim, begin, bodyStart, end);
      AsWrittenStep(s, delim, |delim|, begin, end);
      DocsFromAsWrittenAgrees(s, delim, end);
      var rest := DocsFrom(s, delim, end);
      if end < |s| {
        DocsFromEnds(s, delim, end);
        assert Last([(bodyStart, end)] + rest) == Last(rest);
      } else {
        assert rest == [];
      }
    }
  }

  function Last<X>(xs: seq<X>): X
    requires |xs| > 0
  {
    xs[|xs| - 1]
  }

  /** For an ASCII delimiter (the `"<doc"` the benchmark passes), the loop
      as written panics exactly when the text is shorter than the delimiter
      or the last document body is; otherwise it finds the same documents. */
  lemma AsWrittenPanics(s: string, delim: string)
    requires |delim| > 0 && IsAsciiString(delim)
    ensures DocumentsAsWritten(s, delim).Some? ==> DocumentsAsWritten(s, delim).value == Documents(s, delim)
    ensures DocumentsAsWritten(s, delim).None? <==>
              |s| < |delim| ||
              (|Documents(s, delim)| > 0 && |s| - Last(Documents(s, delim)).0 < |delim|)
  {
    Utf8LenAscii(delim);
    if |s| >= |delim| {
      DocsFromAsWrittenAgrees(s, delim, SearchOrEnd(s, delim));
    }
  }

  /** A text whose last body is shorter than the delimiter: the loop as
      written panics, where a sentinel search finds one document. */
  lemma ShortLastBody()
    ensures DocumentsAsWritten("abx", "ab") == None
    ensures Documents("abx", "ab") == [(2, 3)]
  {
    assert MatchAt("abx", "ab", 0);
    assert Search("abx", "ab") == Some(0);
    assert Utf8Len("ab") == 2;
    assert "abx"[2..] == "x";
    assert SearchOrEnd("abx"[2..], "ab") == 1;
  }

  /** A delimiter of one two-byte character: the loop as written skips one
      character too many after it, so it drops the body's first character,
      and when the delimiter is the last character but one, `search` of the
      empty rest returns `None` and `unwrap` panics; the corrected loop
      finds the bodies right after the delimiter. */
  lemma NonAsciiDelimiter()
    ensures Utf8Len("\U{E9}") == 2
    ensures DocumentsAsWritten("\U{E9}ab", "\U{E9}") == Some([(2, 3)])
    ensures Documents("\U{E9}ab", "\U{E9}") == [(1, 3)]
    ensures DocumentsAsWritten("a\U{E9}b", "\U{E9}") == None
    ensures Documents("a\U{E9}b", "\U{E9}") == [(2, 3)]
  {
    var d := "\U{E9}";
    assert Utf8Len(d) == 2;
    var s1 := "\U{E9}ab";
    assert MatchAt(s1, d, 0);
    assert Search(s1, d) == Some(0);
    assert s1[2..] == "b";
    assert Search(s1[2..], d) == Some(1);
    assert NextMatch(s1, d, 2) == Some(3);
    assert DocsFromAsWritten(s1, d, 2, 3) == Some([]);
    assert DocsFromAsWritten(s1, d, 2, 0) == Prepend((2, 3), Some([]));
    assert [(2, 3)] + [] == [(2, 3)];
    assert DocumentsAsWritten(s1, d) == DocsFromAsWritten(s1, d, 2, 0);
    assert s1[1..] == "ab";
    assert !MatchAt("ab", d, 0) && !MatchAt("ab", d, 1);
    assert SearchOrEnd(s1[1..], d) == 2;
    var s2 := "a\U{E9}b";
    assert !MatchAt(s2, d, 0) && MatchAt(s2, d, 1);
    assert Search(s2, d) == Some(1);
    assert s2[2..] == "b";
    assert SearchOrEnd(s2[2..], d) == 1;
  }

  /** The documents found from `begin`: there are some exactly when
      `begin` is a match, the first body follows it, and the last body runs
      to the end of the text. */
  lemma {:induction false} DocsFromEnds(s: string, delim: string, begin: nat)
    requires |delim| > 0 && begin <= |s|
    requires begin < |s| ==> MatchAt(s, delim, begin)
    ensures |DocsFrom(s, delim, begin)| > 0 <==> begin < |s|
    ensures |DocsFrom(s, delim, begin)| > 0 ==>
              DocsFrom(s, delim, begin)[0].0 == begin + |delim| && Last(DocsFrom(s, delim, begin)).1 == |s|
    decreases |s| - begin
  {
    if begin < |s| {
      var bodyStart := begin + |delim|;
      var end := SearchOrEnd(s[bodyStart..], delim) + bodyStart;
      DocsFromStep(s, delim, begin, bodyStart, end);
      DocsFromEnds(s, delim, end);
      var rest := DocsFrom(s, delim, end);
      if |rest| > 0 {
        assert Last([(bodyStart, end)] + rest) == Last(rest);
      }
    }
  }

  /** `[b, e)` is a document body: it follows a delimiter match and no
      delimiter starts inside it. */
  ghost predicate IsBody(s: string, delim: string, b: nat, e: nat) {
    && |delim| <= b <= e <= |s|
    && MatchAt(s, delim, b - |delim|)
    && forall j | b <= j < e :: !MatchAt(s, delim, j)
  }

  /** Each body found from `begin` follows a delimiter match and contains
      no delimiter start. */
  lemma {:induction false} DocsFromBodies(s: string, delim: string, begin: nat)
    requires |delim| > 0 && begin <= |s|
    requires begin < |s| ==> MatchAt(s, delim, begin)
    ensures forall k | 0 <= k < |DocsFrom(s, delim, begin)| ::
              IsBody(s, delim, DocsFrom(s, delim, begin)[k].0, DocsFrom(s, delim, begin)[k].1)
    decreases |s| - begin
  {
    if begin < |s| {
      var bodyStart := begin + |delim|;
      var end := SearchOrEnd(s[bodyStart..], delim) + bodyStart;
      DocsFromStep(s, delim, begin, bodyStart, end);
      DocsFromBodies(s, delim, end);
      assert IsBody(s, delim, bodyStart, end);
      var rest := DocsFrom(s, delim, end);
      assert forall k | 1 <= k < |rest| + 1 :: ([(bodyStart, end)] + rest)[k] == rest[k - 1];
    }
  }

  /** Consecutive bodies are separated by exactly one delimiter. */
  lemma {:induction false} DocsFromChain(s: string, delim: string, begin: nat)
    requires |delim| > 0 && begin <= |s|
    requires begin < |s| ==> MatchAt(s, delim, begin)
    ensures forall k | 0 <= k < |DocsFrom(s, delim, begin)| - 1 ::
              DocsFrom(s, delim, begin)[k].1 + |delim| == DocsFrom(s, delim, begin)[k + 1].0
    decreases |s| - begin
  {
    if begin < |s| {
      var bodyStart := begin + |delim|;
      var end := SearchOrEnd(s[bodyStart..], delim) + bodyStart;
      DocsFromStep(s, delim, begin, bodyStart, end);
      DocsFromChain(s, delim, end);
      DocsFromEnds(s, delim, end);
      var rest := DocsFrom(s, delim, end);
      assert forall k | 1 <= k < |rest| + 1 :: ([(bodyStart, end)] + rest)[k] == rest[k - 1];
    }
  }

  /** The documents tile the text from its first delimiter on; a text
      without the delimiter has no documents. */
  lemma DocumentsTile(s: string, delim: string)
    requires |delim| > 0
    ensures |Documents(s, delim)| == 0 <==> forall j | 0 <= j < |s| :: !MatchAt(s, delim, j)
    ensures |Documents(s, delim)| > 0 ==>
              var b := Documents(s, delim)[0].0 - |delim|;
              MatchAt(s, delim, b) && forall j | 0 <= j < b :: !MatchAt(s, delim, j)
    ensures forall k | 0 <= k < |Documents(s, delim)| ::
              IsBody(s, delim, Documents(s, delim)[k].0, Documents(s, delim)[k].1)
    ensures forall k | 0 <= k < |Documents(s, delim)| - 1 ::
              Documents(s, delim)[k].1 + |delim| == Documents(s, delim)[k + 1].0
    ensures |Documents(s, delim)| > 0 ==> Last(Documents(s, delim)).1 == |s|
  {
    DocsFromEnds(s, delim, SearchOrEnd(s, delim));
    DocsFromBodies(s, delim, SearchOrEnd(s, delim));
    DocsFromChain(s, delim, SearchOrEnd(s, delim));
  }

  // ---------------------------------------------------------------------
  // The words of a document

  /** The skip loops of `build_index`: moves past characters that are not
      letters, which does not change the runs still ahead. */
  method SkipNonLetters(body: string, i: nat) returns (i': nat)
    requires i <= |body|
    ensures i <= i' <= |body| && (i' < |body| ==> IsAlpha(body[i']))
    ensures RunsFrom(body, IsNonAlpha, i') == RunsFrom(body, IsNonAlpha, i)
  {
    i' := i;
    while i' != |body| && !IsAlpha(body[i'])
      invariant i <= i' <= |body|
      invariant RunsFrom(body, IsNonAlpha, i') == RunsFrom(body, IsNonAlpha, i)
      decreases |body| - i'
    {
      i' := i' + 1;
    }
  }

  /** The `find_if` of `build_index`: the end of the run of letters that
      starts at `i`. */
  method FindRunEnd(body: string, i: nat) returns (e: nat)
    requires i <= |body|
    ensures e == RunEnd(body, IsNonAlpha, i)
  {
    e := i;
    while e != |body| && IsAlpha(body[e])
      invariant i <= e <= |body|
      invariant RunEnd(body, IsNonAlpha, e) == RunEnd(body, IsNonAlpha, i)
      decreases |body| - e
    {
      e := e + 1;
    }
  }

  /** The token loop of `build_index` over one document body: the words are
      its maximal runs of letters, left to right, lower-cased. */
  method DocWords(body: string) returns (words: seq<string>)
    ensures words == LetterWords(body)
  {
    ghost var runs := Runs(body, IsNonAlpha);
    RunsInRange(body, IsNonAlpha, 0);
    var i := SkipNonLetters(body, 0);
    words := [];
    while i != |body|
      invariant i <= |body| && (i < |body| ==> IsAlpha(body[i]))
      invariant |words| <= |runs| && RunsFrom(body, IsNonAlpha, i) == runs[|words|..]
      invariant forall k | 0 <= k < |words| :: words[k] == LetterWords(body)[k]
      decreases |body| - i
    {
      var e := FindRunEnd(body, i);
      assert runs[|words|..] == [(i, e)] + RunsFrom(body, IsNonAlpha, e);
      assert runs[|words|] == (i, e);
      assert runs[|words| + 1..] == RunsFrom(body, IsNonAlpha, e);
      words := words + [Lowered(body[i..e])];
      i := SkipNonLetters(body, e);
    }
    assert |words| == |runs|;
  }

  // ---------------------------------------------------------------------
  // Grouping the words by document

  /** The ids recorded for `w`, empty when `w` is not a key. */
  function Ids(index: seq<(string, seq<nat>)>, w: string): seq<nat>
    decreases |index|
  {
    if |index| == 0 then []
    else if index[0].0 == w then index[0].1
    else Ids(index[1..], w)
  }

  /** `words.entry(w).or_default()`, then `d` is pushed unless the list
      already contains it. */
  function AddWord(index: seq<(string, seq<nat>)>, w: string, d: nat): seq<(string, seq<nat>)>
    decreases |index|
  {
    if |index| == 0 then [(w, [d])]
    else if index[0].0 == w then [(w, if d in index[0].1 then index[0].1 else index[0].1 + [d])] + index[1..]
    else [index[0]] + AddWord(index[1..], w, d)
  }

  /** The words of document `d` added in order. */
  function AddDoc(index: seq<(string, seq<nat>)>, words: seq<string>, d: nat): seq<(string, seq<nat>)>
    decreases |words|
  {
    if |words| == 0 then index
    else AddWord(AddDoc(index, words[..|words| - 1], d), words[|words| - 1], d)
  }

  /** The map built by the document loop from the words of the documents
      0, 1, ..., in order. */
  function Group(docs: seq<seq<string>>): seq<(string, seq<nat>)>
    decreases |docs|
  {
    if |docs| == 0 then []
    else AddDoc(Group(docs[..|docs| - 1]), docs[|docs| - 1], |docs| - 1)
  }

  /** The reference: the ids of the documents that contain `w`, in
      increasing order. */
  function DocsWith(docs: seq<seq<string>>, w: string): (ids: seq<nat>)
    decreases |docs|
  {
    if |docs| == 0 then []
    else DocsWith(docs[..|docs| - 1], w) + (if w in docs[|docs| - 1] then [|docs| - 1] else [])
  }

  predicate StrictlyIncreasing(ids: seq<nat>) {
    forall i, j | 0 <= i < j < |ids| :: ids[i] < ids[j]
  }

  /** A word's list holds, in strictly increasing order, exactly the
      documents that contain it. */
  lemma {:induction false} DocsWithSpec(docs: seq<seq<string>>, w: string)
    ensures StrictlyIncreasing(DocsWith(docs, w))
    ensures forall d: nat :: d in DocsWith(docs, w) <==> d < |docs| && w in docs[d]
    decreases |docs|
  {
    if |docs| > 0 {
      var n := |docs| - 1;
      DocsWithSpec(docs[..n], w);
      assert forall d | 0 <= d < n :: docs[..n][d] == docs[d];
      var ids := DocsWith(docs, w);
      var pre := DocsWith(docs[..n], w);
      forall i, j | 0 <= i < j < |ids|
        ensures ids[i] < ids[j]
      {
        assert pre[i] in pre;
        if j >= |pre| {
          assert ids[j] == n;
        }
      }
    }
  }

  /** Adding `w` for document `d` appends `d` to the list of `w` unless it
      is already there, and changes no other list. */
  lemma {:induction false} AddWordIds(index: seq<(string, seq<nat>)>, w: string, d: nat, v: string)
    ensures Ids(AddWord(index, w, d), v) ==
              if v != w then Ids(index, v)
              else if d in Ids(index, w) then Ids(index, w)
              else Ids(index, w) + [d]
    decreases |index|
  {
    if |index| > 0 && index[0].0 != w {
      assert AddWord(index, w, d)[1..] == AddWord(index[1..], w, d);
      AddWordIds(index[1..], w, d, v);
    } else if |index| > 0 {
      assert AddWord(index, w, d)[1..] == index[1..];
    }
  }

  /** Adding `w` makes it a key and keeps the keys distinct. */
  lemma {:induction false} AddWordKeys(index: seq<(string, seq<nat>)>, w: string, d: nat)
    requires Distinct(index)
    ensures Distinct(AddWord(index, w, d))
    ensures Keys(AddWord(index, w, d)) == Keys(index) + {w}
    decreases |index|
  {
    var r := AddWord(index, w, d);
    if |index| == 0 {
      assert r[0].0 == w;
    } else {
      DistinctTail(index);
      KeysCons(index);
      KeysCons(r);
      if index[0].0 == w {
        assert r[1..] == index[1..];
      } else {
        AddWordKeys(index[1..], w, d);
        assert r[1..] == AddWord(index[1..], w, d);
        assert r == [index[0]] + r[1..];
        DistinctCons(index[0], r[1..]);
      }
    }
  }

  /** Adding the words of a document `d` later than every recorded id
      appends `d` to the list of each of its words, once. */
  lemma {:induction false} AddDocIds(index: seq<(string, seq<nat>)>, words: seq<string>, d: nat, v: string)
    requires forall x | x in Ids(index, v) :: x < d
    ensures Ids(AddDoc(index, words, d), v) == Ids(index, v) + (if v in words then [d] else [])
    decreases |words|
  {
    if |words| > 0 {
      var n := |words| - 1;
      var prev := AddDoc(index, words[..n], d);
      AddDocIds(index, words[..n], d, v);
      AddWordIds(prev, words[n], d, v);
      assert AddDoc(index, words, d) == AddWord(prev, words[n], d);
      assert d !in Ids(index, v);
      assert words == words[..n] + [words[n]];
      assert v in words <==> v in words[..n] || v == words[n];
    }
  }

  /** Adding the words of a document makes each of them a key and keeps
      the keys distinct. */
  lemma {:induction false} AddDocKeys(index: seq<(string, seq<nat>)>, words: seq<string>, d: nat)
    requires Distinct(index)
    ensures Distinct(AddDoc(index, words, d))
    ensures Keys(AddDoc(index, words, d)) == Keys(index) + set w | w in words
    decreases |words|
  {
    if |words| > 0 {
      var n := |words| - 1;
      AddDocKeys(index, words[..n], d);
      AddWordKeys(AddDoc(index, words[..n], d), words[n], d);
      assert words == words[..n] + [words[n]];
    }
  }

  /** The map records for every word exactly the documents that contain
      it, in increasing order. */
  lemma {:induction false} GroupIds(docs: seq<seq<string>>, v: string)
    ensures Ids(Group(docs), v) == DocsWith(docs, v)
    decreases |docs|
  {
    if |docs| > 0 {
      var n := |docs| - 1;
      GroupIds(docs[..n], v);
      DocsWithSpec(docs[..n], v);
      AddDocIds(Group(docs[..n]), docs[n], n, v);
    }
  }

  /** The words that occur in some document. */
  function AllWords(docs: seq<seq<string>>): set<string> {
    set d, w | 0 <= d < |docs| && w in docs[d] :: w
  }

  lemma AllWordsSnoc(docs: seq<seq<string>>)
    requires |docs| > 0
    ensures forall w :: w in AllWords(docs) <==> w in AllWords(docs[..|docs| - 1]) || w in docs[|docs| - 1]
  {
    var n := |docs| - 1;
    forall w | w in AllWords(docs)
      ensures w in AllWords(docs[..n]) || w in docs[n]
    {
      var d :| 0 <= d < |docs| && w in docs[d];
      if d < n {
        assert docs[..n][d] == docs[d];
      }
    }
    forall w | w in AllWords(docs[..n])
      ensures w in AllWords(docs)
    {
      var d :| 0 <= d < n && w in docs[..n][d];
      assert docs[..n][d] == docs[d];
    }
  }

  /** The keys of the map are distinct and are the words of the
      documents. */
  lemma {:induction false} GroupKeys(docs: seq<seq<string>>)
    ensures Distinct(Group(docs))
    ensures Keys(Group(docs)) == AllWords(docs)
    decreases |docs|
  {
    if |docs| > 0 {
      var n := |docs| - 1;
      var g := Group(docs[..n]);
      GroupKeys(docs[..n]);
      AddDocKeys(g, docs[n], n);
      AllWordsSnoc(docs);
      assert Group(docs) == AddDoc(g, docs[n], n);
      forall w
        ensures w in Keys(Group(docs)) <==> w in AllWords(docs)
      {
        assert w in Keys(Group(docs)) <==> w in Keys(g) || w in docs[n];
      }
    }
  }

  /** With distinct keys, each entry holds the list that lookup finds. */
  lemma {:induction false} IdsEntry(index: seq<(string, seq<nat>)>, i: nat)
    requires Distinct(index) && i < |index|
    ensures Ids(index, index[i].0) == index[i].1
    decreases i
  {
    if i > 0 {
      DistinctTail(index);
      assert index[1..][i - 1] == index[i];
      IdsEntry(index[1..], i - 1);
    }
  }

  // ---------------------------------------------------------------------
  // Sorting the words

  /** The order of `Vec<char>`: lexicographic by code point, a proper
      prefix before the longer string. */
  predicate LexLess(a: string, b: string)
    decreases |a|
  {
    |b| > 0 && (|a| == 0 || a[0] < b[0] || (a[0] == b[0] && LexLess(a[1..], b[1..])))
  }

  lemma {:induction false} LexIrreflexive(a: string)
    ensures !LexLess(a, a)
    decreases |a|
  {
    if |a| > 0 {
      LexIrreflexive(a[1..]);
    }
  }

  lemma {:induction false} LexTransitive(a: string, b: string, c: string)
    requires LexLess(a, b) && LexLess(b, c)
    ensures LexLess(a, c)
    decreases |a|
  {
    if |a| > 0 && a[0] == b[0] && b[0] == c[0] {
      LexTransitive(a[1..], b[1..], c[1..]);
    }
  }

  lemma {:induction false} LexTotal(a: string, b: string)
    requires a != b
    ensures LexLess(a, b) || LexLess(b, a)
    decreases |a|
  {
    if |a| > 0 && |b| > 0 && a[0] == b[0] {
      assert a == [a[0]] + a[1..] && b == [b[0]] + b[1..];
      LexTotal(a[1..], b[1..]);
    }
  }

  /** The entries are in strictly increasing order of their words. */
  predicate SortedByWord(entries: seq<(string, seq<nat>)>) {
    forall i, j | 0 <= i < j < |entries| :: LexLess(entries[i].0, entries[j].0)
  }

  /** Inserting an entry into a sorted list before the first larger word. */
  function InsertEntry(sorted: seq<(string, seq<nat>)>, e: (string, seq<nat>)): (r: seq<(string, seq<nat>)>)
    ensures |r| == |sorted| + 1
    decreases |sorted|
  {
    if |sorted| == 0 then [e]
    else if LexLess(e.0, sorted[0].0) then [e] + sorted
    else [sorted[0]] + InsertEntry(sorted[1..], e)
  }

  /** `sorted_words.sort()` with each word carrying its list: an insertion
      sort of the entries by word. */
  function SortEntries(entries: seq<(string, seq<nat>)>): (r: seq<(string, seq<nat>)>)
    ensures |r| == |entries|
    decreases |entries|
  {
    if |entries| == 0 then []
    else InsertEntry(SortEntries(entries[..|entries| - 1]), entries[|entries| - 1])
  }

  /** Insertion adds exactly the one entry. */
  lemma {:induction false} InsertEntryMultiset(sorted: seq<(string, seq<nat>)>, e: (string, seq<nat>))
    ensures multiset(InsertEntry(sorted, e)) == multiset(sorted) + multiset{e}
    decreases |sorted|
  {
    if |sorted| > 0 && !LexLess(e.0, sorted[0].0) {
      InsertEntryMultiset(sorted[1..], e);
      assert sorted == [sorted[0]] + sorted[1..];
    }
  }

  /** A word below the inserted one and below every listed one is below
      every word of the result. */
  lemma InsertEntryBelow(sorted: seq<(string, seq<nat>)>, e: (string, seq<nat>), x: string)
    requires LexLess(x, e.0)
    requires forall i | 0 <= i < |sorted| :: LexLess(x, sorted[i].0)
    ensures forall i | 0 <= i < |sorted| + 1 :: LexLess(x, InsertEntry(sorted, e)[i].0)
  {
    var r := InsertEntry(sorted, e);
    InsertEntryMultiset(sorted, e);
    forall i | 0 <= i < |r|
      ensures LexLess(x, r[i].0)
    {
      assert r[i] in multiset(r);
      if r[i] != e {
        assert r[i] in multiset(sorted);
        var k :| 0 <= k < |sorted| && sorted[k] == r[i];
      }
    }
  }

  /** Insertion of a new word keeps the list sorted. */
  lemma {:induction false} InsertEntrySorted(sorted: seq<(string, seq<nat>)>, e: (string, seq<nat>))
    requires SortedByWord(sorted)
    requires forall i | 0 <= i < |sorted| :: sorted[i].0 != e.0
    ensures SortedByWord(InsertEntry(sorted, e))
    decreases |sorted|
  {
    var r := InsertEntry(sorted, e);
    if |sorted| == 0 {
    } else if LexLess(e.0, sorted[0].0) {
      forall i, j | 0 <= i < j < |r|
        ensures LexLess(r[i].0, r[j].0)
      {
        if i == 0 && j > 1 {
          LexTransitive(e.0, sorted[0].0, sorted[j - 1].0);
        }
      }
    } else {
      var rest := sorted[1..];
      InsertEntrySorted(rest, e);
      LexTotal(e.0, sorted[0].0);
      InsertEntryBelow(rest, e, sorted[0].0);
      var tail := InsertEntry(rest, e);
      assert r == [sorted[0]] + tail;
      forall i, j | 0 <= i < j < |r|
        ensures LexLess(r[i].0, r[j].0)
      {
        if i > 0 {
          assert r[i] == tail[i - 1] && r[j] == tail[j - 1];
        }
      }
    }
  }

  /** Dropping the last entry of a distinct list keeps it distinct, and
      the dropped word is no key of the rest. */
  lemma DistinctLast(entries: seq<(string, seq<nat>)>)
    requires Distinct(entries) && |entries| > 0
    ensures Distinct(entries[..|entries| - 1])
    ensures entries[|entries| - 1].0 !in Keys(entries[..|entries| - 1])
  {
    var pre := entries[..|entries| - 1];
    assert forall k | 0 <= k < |pre| :: pre[k] == entries[k];
  }

  /** A word that is no key of a list is no key of any reordering of it. */
  lemma NewWordStaysNew(pre: seq<(string, seq<nat>)>, sorted: seq<(string, seq<nat>)>, e: (string, seq<nat>))
    requires multiset(sorted) == multiset(pre) && e.0 !in Keys(pre)
    ensures forall i | 0 <= i < |sorted| :: sorted[i].0 != e.0
  {
    forall i | 0 <= i < |sorted|
      ensures sorted[i].0 != e.0
    {
      assert sorted[i] in multiset(pre);
      var k :| 0 <= k < |pre| && pre[k] == sorted[i];
    }
  }

  /** Sorting entries with distinct words yields them in strictly
      increasing order of their words, each exactly once. */
  lemma {:induction false} SortEntriesSpec(entries: seq<(string, seq<nat>)>)
    requires Distinct(entries)
    ensures SortedByWord(SortEntries(entries))
    ensures multiset(SortEntries(entries)) == multiset(entries)
    decreases |entries|
  {
    if |entries| > 0 {
      var n := |entries| - 1;
      var pre := entries[..n];
      var e := entries[n];
      DistinctLast(entries);
      SortEntriesSpec(pre);
      var sorted := SortEntries(pre);
      assert SortEntries(entries) == InsertEntry(sorted, e);
      NewWordStaysNew(pre, sorted, e);
      InsertEntrySorted(sorted, e);
      InsertEntryMultiset(sorted, e);
      assert entries == pre + [e];
      assert multiset(entries) == multiset(pre) + multiset{e};
    }
  }

  // ---------------------------------------------------------------------
  // The output format

  function DigitChar(d: nat): (c: char)
    requires d < 10
    ensures '0' <= c <= '9'
  {
    ('0' as int + d) as char
  }

  function DigitValue(c: char): nat {
    if '0' <= c <= '9' then c as int - '0' as int else 0
  }

  /** `to_string` of a document id: its decimal digits, most significant
      first, with no leading zero. */
  function Decimal(n: nat): (t: string)
    ensures |t| >= 1 && forall i | 0 <= i < |t| :: '0' <= t[i] <= '9'
    ensures (t[0] == '0') == (n == 0)
    decreases n
  {
    if n < 10 then [DigitChar(n)] else Decimal(n / 10) + [DigitChar(n % 10)]
  }

  /** Reading decimal digits back, most significant first. */
  function ParseDecimal(t: string): nat
    decreases |t|
  {
    if |t| == 0 then 0 else 10 * ParseDecimal(t[..|t| - 1]) + DigitValue(t[|t| - 1])
  }

  lemma {:induction false} DecimalRoundTrip(n: nat)
    ensures ParseDecimal(Decimal(n)) == n
    decreases n
  {
    if n >= 10 {
      var t := Decimal(n);
      DecimalRoundTrip(n / 10);
      assert t[..|t| - 1] == Decimal(n / 10);
    }
  }

  /** The ids of one word, separated by single spaces, with no trailing
      space. */
  function JoinIds(ids: seq<nat>): string
    decreases |ids|
  {
    if |ids| == 0 then []
    else if |ids| == 1 then Decimal(ids[0])
    else Decimal(ids[0]) + [' '] + JoinIds(ids[1..])
  }

  /** One output line: the word, a space, its ids, a newline. */
  function Line(e: (string, seq<nat>)): string {
    e.0 + [' '] + JoinIds(e.1) + ['\n']
  }

  /** The lines of all entries, in order. */
  function FormatIndex(entries: seq<(string, seq<nat>)>): string
    decreases |entries|
  {
    if |entries| == 0 then [] else Line(entries[0]) + FormatIndex(entries[1..])
  }

  // ---------------------------------------------------------------------
  // Reading the output back

  /** The first position of `c` in `t`, or `|t|`. */
  function IndexOf(t: string, c: char): (i: nat)
    ensures i <= |t| && (i < |t| ==> t[i] == c)
    ensures forall j | 0 <= j < i :: t[j] != c
    decreases |t|
  {
    if |t| == 0 || t[0] == c then 0
    else
      var i := 1 + IndexOf(t[1..], c);
      assert forall j | 1 <= j < i :: t[j] == t[1..][j - 1];
      i
  }

  /** The first occurrence of `c` is where a prefix free of `c` ends. */
  lemma IndexOfAfter(a: string, c: char, b: string)
    requires forall j | 0 <= j < |a| :: a[j] != c
    ensures IndexOf(a + [c] + b, c) == |a|
    ensures IndexOf(a, c) == |a|
  {
    assert (a + [c] + b)[|a|] == c;
  }

  /** Space-separated decimal ids, read back. */
  function ParseIds(t: string): seq<nat>
    decreases |t|
  {
    var i := IndexOf(t, ' ');
    if i == |t| then [ParseDecimal(t)] else [ParseDecimal(t[..i])] + ParseIds(t[i + 1..])
  }

  /** A line without its newline, read back as a word and its ids. */
  function ParseLine(line: string): (string, seq<nat>) {
    var i := IndexOf(line, ' ');
    (line[..i], if i < |line| then ParseIds(line[i + 1..]) else [])
  }

  /** The output read back line by line. */
  function ParseIndex(out: string): seq<(string, seq<nat>)>
    decreases |out|
  {
    if |out| == 0 then []
    else
      var i := IndexOf(out, '\n');
      [ParseLine(out[..i])] + (if i < |out| then ParseIndex(out[i + 1..]) else [])
  }

  /** The entries can be printed unambiguously: no word holds a space or a
      newline, and every word has at least one id. */
  predicate Printable(entries: seq<(string, seq<nat>)>) {
    forall k | 0 <= k < |entries| ::
      |entries[k].1| > 0 && forall j | 0 <= j < |entries[k].0| :: entries[k].0[j] != ' ' && entries[k].0[j] != '\n'
  }

  /** Joined ids are digits and spaces only. */
  lemma {:induction false} JoinIdsChars(ids: seq<nat>)
    ensures forall j | 0 <= j < |JoinIds(ids)| :: JoinIds(ids)[j] == ' ' || '0' <= JoinIds(ids)[j] <= '9'
    decreases |ids|
  {
    if |ids| > 1 {
      JoinIdsChars(ids[1..]);
      var d := Decimal(ids[0]);
      assert forall j | |d| + 1 <= j < |JoinIds(ids)| :: JoinIds(ids)[j] == JoinIds(ids[1..])[j - |d| - 1];
    }
  }

  lemma {:induction false} JoinIdsRoundTrip(ids: seq<nat>)
    requires |ids| > 0
    ensures ParseIds(JoinIds(ids)) == ids
    decreases |ids|
  {
    var d := Decimal(ids[0]);
    DecimalRoundTrip(ids[0]);
    if |ids| == 1 {
      IndexOfAfter(d, ' ', []);
    } else {
      var rest := JoinIds(ids[1..]);
      IndexOfAfter(d, ' ', rest);
      JoinIdsRoundTrip(ids[1..]);
      var t := d + [' '] + rest;
      assert t[..|d|] == d && t[|d| + 1..] == rest;
      assert ids == [ids[0]] + ids[1..];
    }
  }

  /** A line's only newline is its last character. */
  lemma LineEnd(e: (string, seq<nat>))
    requires forall j | 0 <= j < |e.0| :: e.0[j] != '\n'
    ensures IndexOf(Line(e), '\n') == |Line(e)| - 1
    ensures Line(e)[..|Line(e)| - 1] == e.0 + [' '] + JoinIds(e.1)
  {
    var body := e.0 + [' '] + JoinIds(e.1);
    JoinIdsChars(e.1);
    assert forall k | |e.0| < k < |body| :: body[k] == JoinIds(e.1)[k - |e.0| - 1];
    IndexOfAfter(body, '\n', []);
    assert Line(e) == body + ['\n'] + [];
  }

  /** A line without its newline reads back as its entry. */
  lemma LineRoundTrip(e: (string, seq<nat>))
    requires |e.1| > 0 && forall j | 0 <= j < |e.0| :: e.0[j] != ' '
    ensures ParseLine(e.0 + [' '] + JoinIds(e.1)) == e
  {
    var w := e.0;
    var j := JoinIds(e.1);
    JoinIdsRoundTrip(e.1);
    var body := w + [' '] + j;
    IndexOfAfter(w, ' ', j);
    assert body[..|w|] == w && body[|w| + 1..] == j;
  }

  /** Reading back a line followed by more output. */
  lemma ParseIndexStep(body: string, rest: string)
    requires forall j | 0 <= j < |body| :: body[j] != '\n'
    ensures ParseIndex(body + ['\n'] + rest) == [ParseLine(body)] + ParseIndex(rest)
  {
    var out := body + ['\n'] + rest;
    IndexOfAfter(body, '\n', rest);
    assert out[..|body|] == body && out[|body| + 1..] == rest;
  }

  /** The text of a line before its newline holds no newline. */
  lemma BodyHasNoNewline(e: (string, seq<nat>))
    requires forall j | 0 <= j < |e.0| :: e.0[j] != '\n'
    ensures forall j | 0 <= j < |e.0 + [' '] + JoinIds(e.1)| :: (e.0 + [' '] + JoinIds(e.1))[j] != '\n'
  {
    JoinIdsChars(e.1);
    var body := e.0 + [' '] + JoinIds(e.1);
    forall j | 0 <= j < |body|
      ensures body[j] != '\n'
    {
      if j > |e.0| {
        assert body[j] == JoinIds(e.1)[j - |e.0| - 1];
      }
    }
  }

  /** Printing then reading back gives the entries. */
  lemma {:induction false} FormatRoundTrip(entries: seq<(string, seq<nat>)>)
    requires Printable(entries)
    ensures ParseIndex(FormatIndex(entries)) == entries
    decreases |entries|
  {
    if |entries| > 0 {
      var e := entries[0];
      assert |e.1| > 0 && forall j | 0 <= j < |e.0| :: e.0[j] != ' ' && e.0[j] != '\n';
      var body := e.0 + [' '] + JoinIds(e.1);
      LineEnd(e);
      LineRoundTrip(e);
      BodyHasNoNewline(e);
      assert Line(e) == body + ['\n'];
      var rest := FormatIndex(entries[1..]);
      assert FormatIndex(entries) == body + ['\n'] + rest;
      ParseIndexStep(body, rest);
      assert Printable(entries[1..]) by {
        assert forall k | 0 <= k < |entries| - 1 :: entries[1..][k] == entries[k + 1];
      }
      FormatRoundTrip(entries[1..]);
      assert entries == [e] + entries[1..];
    }
  }

  /** The inner formatting loop: the digits of each id, each but the last
      followed by a space. */
  method AppendIds(result: string, ids: seq<nat>) returns (out: string)
    ensures out == result + JoinIds(ids)
  {
    out := result;
    for i := 0 to |ids|
      invariant out + JoinIds(ids[i..]) == result + JoinIds(ids)
    {
      assert ids[i..][1..] == ids[i + 1..];
      out := out + Decimal(ids[i]);
      if i < |ids| - 1 {
        out := out + [' '];
      }
    }
  }

  /** The outer formatting loop: one line per entry, appended to the
      output. */
  method AppendIndex(result: string, entries: seq<(string, seq<nat>)>) returns (out: string)
    ensures out == result + FormatIndex(entries)
  {
    out := result;
    for k := 0 to |entries|
      invariant out + FormatIndex(entries[k..]) == result + FormatIndex(entries)
    {
      assert entries[k..][1..] == entries[k + 1..];
      out := out + entries[k].0 + [' '];
      out := AppendIds(out, entries[k].1);
      out := out + ['\n'];
    }
  }

  // ---------------------------------------------------------------------
  // build_index

  /** The document bodies lie inside the text. */
  lemma DocumentsInRange(s: string, delim: string)
    requires |delim| > 0
    ensures forall k | 0 <= k < |Documents(s, delim)| ::
              Documents(s, delim)[k].0 <= Documents(s, delim)[k].1 <= |s|
  {
    DocumentsTile(s, delim);
  }

  /** The words of every document, document by document. */
  function DocumentWords(s: string, docs: seq<(nat, nat)>): (ws: seq<seq<string>>)
    requires forall k | 0 <= k < |docs| :: docs[k].0 <= docs[k].1 <= |s|
    ensures |ws| == |docs|
  {
    seq(|docs|, k requires 0 <= k < |docs| => LetterWords(s[docs[k].0..docs[k].1]))
  }

  /** The words of the documents of `s`, document by document. */
  function TextWords(s: string, delim: string): (ws: seq<seq<string>>)
    requires |delim| > 0
    ensures |ws| == |Documents(s, delim)|
  {
    DocumentsInRange(s, delim);
    DocumentWords(s, Documents(s, delim))
  }

  /** The entries the index prints: the grouped words sorted. */
  function IndexEntries(s: string, delim: string): seq<(string, seq<nat>)>
    requires |delim| > 0
  {
    SortEntries(Group(TextWords(s, delim)))
  }

  /** The document loop of `build_index`: the words of each body are
      grouped by word, document by document. */
  method IndexDocuments(s: string, docs: seq<(nat, nat)>) returns (index: seq<(string, seq<nat>)>)
    requires forall k | 0 <= k < |docs| :: docs[k].0 <= docs[k].1 <= |s|
    ensures index == Group(DocumentWords(s, docs))
    ensures Distinct(index)
    ensures forall v :: Ids(index, v) == DocsWith(DocumentWords(s, docs), v)
  {
    ghost var ws := DocumentWords(s, docs);
    index := [];
    for d := 0 to |docs|
      invariant index == Group(ws[..d])
    {
      var words := DocWords(s[docs[d].0..docs[d].1]);
      assert ws[..d + 1][..d] == ws[..d];
      index := AddDoc(index, words, d);
    }
    assert ws[..|docs|] == ws;
    GroupKeys(ws);
    forall v {
      GroupIds(ws, v);
    }
  }

  /** Every word of the grouped lists is lower-case letters and every list
      names the documents containing its word, in increasing order. */
  lemma GroupEntry(s: string, docs: seq<(nat, nat)>, i: nat)
    requires forall k | 0 <= k < |docs| :: docs[k].0 <= docs[k].1 <= |s|
    requires i < |Group(DocumentWords(s, docs))|
    ensures var ws := DocumentWords(s, docs);
            var e := Group(ws)[i];
            && StrictlyIncreasing(e.1)
            && (forall d: nat :: d in e.1 <==> d < |ws| && e.0 in ws[d])
            && |e.1| > 0
            && forall j | 0 <= j < |e.0| :: IsLower(e.0[j])
  {
    var ws := DocumentWords(s, docs);
    var g := Group(ws);
    var e := g[i];
    GroupKeys(ws);
    IdsEntry(g, i);
    GroupIds(ws, e.0);
    DocsWithSpec(ws, e.0);
    assert e.0 in Keys(g);
    var d, w :| 0 <= d < |ws| && w in ws[d] && w == e.0;
    assert d in e.1;
    var k :| 0 <= k < |ws[d]| && ws[d][k] == w;
    LetterWordsLower(s[docs[d].0..docs[d].1]);
  }

  /** The printed entries are sorted by word, the words are exactly the
      words of the documents, and each word's ids are exactly the documents
      containing it, in increasing order. */
  lemma IndexEntriesSpec(s: string, delim: string)
    requires |delim| > 0
    ensures var ws := TextWords(s, delim);
            var es := IndexEntries(s, delim);
            && SortedByWord(es)
            && Keys(es) == AllWords(ws)
            && (forall k | 0 <= k < |es| ::
                  StrictlyIncreasing(es[k].1) && forall d: nat :: d in es[k].1 <==> d < |ws| && es[k].0 in ws[d])
            && Printable(es)
  {
    DocumentsInRange(s, delim);
    var docs := Documents(s, delim);
    var ws := DocumentWords(s, docs);
    var g := Group(ws);
    var es := IndexEntries(s, delim);
    GroupKeys(ws);
    SortEntriesSpec(g);
    KeysOfPermutation(es, g);
    forall k | 0 <= k < |es|
      ensures StrictlyIncreasing(es[k].1) && (forall d: nat :: d in es[k].1 <==> d < |ws| && es[k].0 in ws[d])
      ensures |es[k].1| > 0 && forall j | 0 <= j < |es[k].0| :: IsLower(es[k].0[j])
    {
      assert es[k] in multiset(g);
      var i :| 0 <= i < |g| && g[i] == es[k];
      GroupEntry(s, docs, i);
    }
  }

  /** `build_index`: appends to `result` one line per word of the
      documents, which reads back as the sorted index entries; a text
      without the delimiter leaves `result` unchanged. */
  method BuildIndex(result: string, s: string, delim: string) returns (out: string)
    requires |delim| > 0
    ensures |out| >= |result| && out[..|result|] == result
    ensures out == result + FormatIndex(IndexEntries(s, delim))
    ensures ParseIndex(out[|result|..]) == IndexEntries(s, delim)
    ensures (forall j | 0 <= j < |s| :: !MatchAt(s, delim, j)) ==> out == result
  {
    var docs := Documents(s, delim);
    DocumentsInRange(s, delim);
    var index := IndexDocuments(s, docs);
    var sorted := SortEntries(index);
    out := AppendIndex(result, sorted);
    IndexEntriesSpec(s, delim);
    FormatRoundTrip(sorted);
    assert out[|result|..] == FormatIndex(sorted);
    DocumentsTile(s, delim);
  }
}
