/** Lemmas about the indicator count of concrete texts and of texts built
    from known tokens, and worked examples of the tagging rules. */
module HeuristicExamples {
  import opened Wrappers
  import opened PythonText
  import opened LanguageHeuristic

  lemma LowerOfLower(s: string)
    requires forall k :: 0 <= k < |s| ==> !IsAsciiUpper(s[k])
    ensures Lower(s) == s
  {
  }

  lemma {:induction false} UnwordsNoUpper(ws: seq<string>)
    requires forall i :: 0 <= i < |ws| ==> IsLowerWord(ws[i])
    ensures forall k :: 0 <= k < |Unwords(ws)| ==> !IsAsciiUpper(Unwords(ws)[k])
  {
    if |ws| > 1 {
      UnwordsNoUpper(ws[1..]);
      assert Unwords(ws) == ws[0] + " " + Unwords(ws[1..]);
    }
  }

  /** The count read off a known token list. */
  lemma CountOfTokens(text: string, ws: seq<string>)
    requires Tokens(Lower(text)) == ws
    ensures IndicatorCount(text) == Occurrences(ws)
  {
  }

  lemma LowerOfUnwords(ws: seq<string>)
    requires forall i :: 0 <= i < |ws| ==> IsLowerWord(ws[i])
    ensures Lower(Unwords(ws)) == Unwords(ws)
  {
    UnwordsNoUpper(ws);
    LowerOfLower(Unwords(ws));
  }

  lemma TokensOfLowerWords(ws: seq<string>)
    requires forall i :: 0 <= i < |ws| ==> IsLowerWord(ws[i])
    ensures Tokens(Unwords(ws)) == ws
  {
    TokensUnwords(ws);
  }

  lemma TokensOfLowered(ws: seq<string>)
    requires forall i :: 0 <= i < |ws| ==> IsLowerWord(ws[i])
    ensures Tokens(Lower(Unwords(ws))) == ws
  {
    LowerOfUnwords(ws);
    TokensOfLowerWords(ws);
  }

  /** Text written as lower-case tokens joined by spaces scores exactly the
      number of those tokens that are indicators. */
  lemma IndicatorCountOfWords(ws: seq<string>)
    requires forall i :: 0 <= i < |ws| ==> IsLowerWord(ws[i])
    ensures IndicatorCount(Unwords(ws)) == Occurrences(ws)
  {
    TokensOfLowered(ws);
    CountOfTokens(Unwords(ws), ws);
  }

  /** `"the the"` scores 2: repeated indicators all count. */
  lemma RepeatedIndicatorsCount()
    ensures IndicatorCount("the the") == 2
  {
    var ws := ["the", "the"];
    assert Unwords(ws) == "the the";
    assert IsLowerWord("the");
    assert Occurrences(ws) == 2;
    IndicatorCountOfWords(ws);
  }

  /** `"the,"` scores 0: a token with punctuation attached is not an
      indicator. */
  lemma PunctuatedTokenDoesNotCount()
    ensures IndicatorCount("the,") == 0
  {
    var ws := ["the,"];
    assert Unwords(ws) == "the,";
    assert IsLowerWord("the,");
    NonLetterWordIsNotIndicator("the,", 3);
    assert Occurrences(ws) == 0;
    IndicatorCountOfWords(ws);
  }

  /** `"this is"` scores 2. */
  lemma TwoIndicators()
    ensures IndicatorCount("this is") == 2
  {
    var ws := ["this", "is"];
    assert Unwords(ws) == "this is";
    assert IsLowerWord("this") && IsLowerWord("is");
    assert Occurrences(ws) == 2;
    IndicatorCountOfWords(ws);
  }

  /** The 2-versus-3 asymmetry on a concrete text: `"this is"` has two
      indicators, so from the English attempt it is English, but as a
      Hindi-recognized text it stays Hindi. */
  lemma TwoVersusThree()
    ensures IndicatorCount("this is") == 2
    ensures FinalLanguage(Recognized("this is"), Unrecognized) == Some(En)
    ensures FinalLanguage(Unrecognized, Recognized("this is")) == Some(Hi)
  {
    TwoIndicators();
  }

  /** Devanagari-only text from the English attempt is tagged Hindi. */
  lemma DevanagariOnlyIsHindi()
    ensures FinalLanguage(Recognized("\U{0928}\U{092E}\U{0938}\U{094D}\U{0924}\U{0947}"), Unrecognized) == Some(Hi)
  {
    var w := "\U{0928}\U{092E}\U{0938}\U{094D}\U{0924}\U{0947}";
    assert Unwords([w]) == w;
    NonLetterWordIsNotIndicator(w, 0);
    IndicatorCountOfWords([w]);
    assert InDevanagariBlock(w[0]);
  }
}
