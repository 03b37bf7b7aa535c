/** The words both text benchmarks extract: the maximal runs of ASCII
    letters, left to right, lower-cased. */
module LetterRuns {
  import opened Ascii
  import opened Tokens

  /** The lower-cased maximal letter runs of `text`. */
  function LetterWords(text: string): (ws: seq<string>)
    ensures |ws| == |Runs(text, IsNonAlpha)|
  {
    var toks := TokenSlices(text, IsNonAlpha);
    seq(|toks|, k requires 0 <= k < |toks| => Lowered(toks[k]))
  }

  /** Each word is the lower-cased text of a maximal run of letters, and
      every such run gives a word. */
  lemma LetterWordsAreRuns(text: string)
    ensures forall k | 0 <= k < |LetterWords(text)| ::
              var (s, e) := Runs(text, IsNonAlpha)[k];
              IsToken(text, IsNonAlpha, s, e) && LetterWords(text)[k] == Lowered(text[s..e])
    ensures forall s: nat, e: nat | IsToken(text, IsNonAlpha, s, e) :: (s, e) in Runs(text, IsNonAlpha)
  {
    RunsAreTokens(text, IsNonAlpha);
  }

  /** Every word is non-empty and made of lower-case ASCII letters. */
  lemma LetterWordsLower(text: string)
    ensures forall k | 0 <= k < |LetterWords(text)| :: |LetterWords(text)[k]| > 0
    ensures forall k, j | 0 <= k < |LetterWords(text)| && 0 <= j < |LetterWords(text)[k]| ::
              IsLower(LetterWords(text)[k][j])
  {
    var ws := LetterWords(text);
    var runs := Runs(text, IsNonAlpha);
    LetterWordsAreRuns(text);
    forall k, j | 0 <= k < |ws| && 0 <= j < |ws[k]|
      ensures IsLower(ws[k][j])
    {
      var (s, e) := runs[k];
      assert ws[k][j] == ToLower(text[s + j]);
    }
  }
}
