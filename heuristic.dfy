/** The English/Hindi language heuristic: the indicator lexicon, the Devanagari
    script detector, the indicator counter, the tag chosen for a recognized
    utterance, and the second-pass confirmation of a Hindi tag. */
module LanguageHeuristic {
  import opened Wrappers
  import opened PythonText

  /** The two language tags the pipeline produces (`'en'` and `'hi'`). */
  datatype Lang = En | Hi

  /** The outcome of one speech-recognition attempt: the transcribed text, or
      the exception the recognizer raised. */
  datatype Recognition = Recognized(text: string) | Unrecognized

  /** Recognized text paired with its tentative language tag. */
  datatype Utterance = Utterance(text: string, lang: Lang)

  /** `ENGLISH_INDICATORS`: common English function words, in source order,
      written as the concatenation of the list's seven source lines. */
  const EnglishIndicators: seq<string> :=
    IndicatorLine1 + IndicatorLine2 + IndicatorLine3 + IndicatorLine4 +
    IndicatorLine5 + IndicatorLine6 + IndicatorLine7

  const IndicatorLine1: seq<string> := ["the", "is", "are", "was", "were", "this", "that", "these", "those", "a", "an"]
  const IndicatorLine2: seq<string> := ["and", "or", "but", "if", "of", "for", "with", "about", "against", "between"]
  const IndicatorLine3: seq<string> := ["into", "through", "during", "before", "after", "above", "below", "from", "up"]
  const IndicatorLine4: seq<string> := ["down", "in", "out", "on", "off", "over", "under", "again", "further", "then"]
  const IndicatorLine5: seq<string> := ["once", "here", "there", "when", "where", "why", "how", "all", "any", "both"]
  const IndicatorLine6: seq<string> := ["each", "few", "more", "most", "other", "some", "such", "no", "not", "only"]
  const IndicatorLine7: seq<string> := ["own", "same", "so", "than", "too", "very"]

  /** `word in ENGLISH_INDICATORS`: exact, whole-token list membership. */
  predicate IsIndicator(word: string) {
    word in EnglishIndicators
  }

  /** A token made only of characters that ASCII lower-casing leaves alone. */
  predicate IsLowerWord(w: string) {
    IsWord(w) && forall i :: 0 <= i < |w| ==> !IsAsciiUpper(w[i])
  }

  /** A non-empty run of the letters a to z. */
  predicate IsLetterWord(w: string) {
    |w| > 0 && forall i :: 0 <= i < |w| ==> 'a' <= w[i] <= 'z'
  }

  predicate AllLetterWords(line: seq<string>) {
    forall w :: w in line ==> IsLetterWord(w)
  }

  lemma IndicatorLine1Letters() ensures AllLetterWords(IndicatorLine1) {
  }

  lemma IndicatorLine2Letters() ensures AllLetterWords(IndicatorLine2) {
  }

  lemma IndicatorLine3Letters() ensures AllLetterWords(IndicatorLine3) {
  }

  lemma IndicatorLine4Letters() ensures AllLetterWords(IndicatorLine4) {
  }

  lemma IndicatorLine5Letters() ensures AllLetterWords(IndicatorLine5) {
  }

  lemma IndicatorLine6Letters() ensures AllLetterWords(IndicatorLine6) {
  }

  lemma IndicatorLine7Letters() ensures AllLetterWords(IndicatorLine7) {
  }

  /** Every indicator is a single token of the letters a to z. So ASCII
      lower-casing is all the matching needs, and each indicator can be
      produced by lower-casing and splitting. */
  lemma IndicatorsAreLowerWords()
    ensures |EnglishIndicators| == 66
    ensures forall w :: w in EnglishIndicators ==> IsLetterWord(w) && IsLowerWord(w)
  {
    IndicatorLine1Letters();
    IndicatorLine2Letters();
    IndicatorLine3Letters();
    IndicatorLine4Letters();
    IndicatorLine5Letters();
    IndicatorLine6Letters();
    IndicatorLine7Letters();
  }

  /** A token with any character outside a to z (punctuation, a digit, an
      upper-case or a non-ASCII letter) is not an indicator. */
  lemma NonLetterWordIsNotIndicator(w: string, k: nat)
    requires k < |w| && !('a' <= w[k] <= 'z')
    ensures !IsIndicator(w)
  {
    IndicatorsAreLowerWords();
  }

  // ---------------------------------------------------------------- script

  /** The Devanagari block, U+0900 to U+097F. */
  predicate InDevanagariBlock(c: char) {
    0x0900 <= c as int <= 0x097F
  }

  /** `is_devanagari`: a regular-expression search for one character of the
      Devanagari block, scanning from the left. */
  function IsDevanagari(text: string): (found: bool)
    ensures found <==> exists i :: 0 <= i < |text| && InDevanagariBlock(text[i])
  {
    if text == [] then false
    else if InDevanagariBlock(text[0]) then true
    else
      assert forall i :: 1 <= i < |text| ==> text[i] == text[1..][i - 1];
      IsDevanagari(text[1..])
  }

  /** Text whose characters are all ASCII (the empty string among them) has no
      Devanagari. */
  lemma AsciiIsNotDevanagari(text: string)
    requires forall i :: 0 <= i < |text| ==> text[i] as int < 0x80
    ensures !IsDevanagari(text)
  {
  }

  // ------------------------------------------------------------ indicators

  /** The number of entries of `words` that are indicators, each occurrence
      counted. */
  function Occurrences(words: seq<string>): (n: nat)
    ensures n <= |words|
  {
    if words == [] then 0
    else (if IsIndicator(words[0]) then 1 else 0) + Occurrences(words[1..])
  }

  /** The value `contains_english_indicators` returns: indicator tokens of the
      lower-cased, whitespace-split text. */
  function IndicatorCount(text: string): nat {
    Occurrences(Tokens(Lower(text)))
  }

  lemma {:induction false} OccurrencesAppend(a: seq<string>, b: seq<string>)
    ensures Occurrences(a + b) == Occurrences(a) + Occurrences(b)
  {
    if a == [] {
      assert a + b == b;
    } else {
      assert (a + b)[0] == a[0];
      assert (a + b)[1..] == a[1..] + b;
      OccurrencesAppend(a[1..], b);
    }
  }

  /** The count does not depend on the order of the tokens. */
  lemma {:induction false} OccurrencesPermutation(a: seq<string>, b: seq<string>)
    requires multiset(a) == multiset(b)
    ensures Occurrences(a) == Occurrences(b)
    decreases |a|
  {
    if a == [] {
      assert |b| == |multiset(b)| == 0;
    } else {
      var x := a[0];
      assert x in multiset(b);
      var j :| 0 <= j < |b| && b[j] == x;
      var rest := b[..j] + b[j + 1..];
      assert b == b[..j] + [x] + b[j + 1..];
      assert a == [x] + a[1..];
      assert multiset(b) == multiset(b[..j]) + multiset([x]) + multiset(b[j + 1..]);
      assert multiset(a) == multiset([x]) + multiset(a[1..]);
      assert multiset(rest) == multiset(b[..j]) + multiset(b[j + 1..]);
      assert multiset(a[1..]) == multiset(a) - multiset([x]);
      assert multiset(rest) == multiset(b) - multiset([x]);
      OccurrencesPermutation(a[1..], rest);
      OccurrencesAppend(b[..j], b[j + 1..]);
      OccurrencesAppend(b[..j] + [x], b[j + 1..]);
      OccurrencesAppend(b[..j], [x]);
    }
  }

  /** A list of tokens made only of indicators scores its full length. */
  lemma {:induction false} OccurrencesAllIndicators(words: seq<string>)
    requires forall i :: 0 <= i < |words| ==> IsIndicator(words[i])
    ensures Occurrences(words) == |words|
  {
    if words != [] {
      OccurrencesAllIndicators(words[1..]);
    }
  }

  /** `contains_english_indicators`: lower-case, split, and count matching
      tokens in a loop. */
  method ContainsEnglishIndicators(text: string) returns (count: nat)
    ensures count == IndicatorCount(text)
    ensures count <= |Tokens(Lower(text))|
  {
    var words := Tokens(Lower(text));
    count := 0;
    for i := 0 to |words|
      invariant count == Occurrences(words[..i])
    {
      assert words[..i + 1] == words[..i] + [words[i]];
      OccurrencesAppend(words[..i], [words[i]]);
      if IsIndicator(words[i]) {
        count := count + 1;
      }
    }
    assert words[..|words|] == words;
  }

  /** The count is zero for the empty text and for text that is all
      whitespace. */
  lemma IndicatorCountBlank(text: string)
    requires forall i :: 0 <= i < |text| ==> IsSpace(text[i])
    ensures IndicatorCount(text) == 0
  {
    assert forall i :: 0 <= i < |text| ==> IsSpace(Lower(text)[i]);
    TokensEmpty(Lower(text));
  }

  /** Matching is case-insensitive: lower-casing the text first changes
      nothing. */
  lemma IndicatorCountIgnoresCase(text: string)
    ensures IndicatorCount(Lower(text)) == IndicatorCount(text)
  {
    assert Lower(Lower(text)) == Lower(text);
  }

  /** Counts add up across a whitespace character: every occurrence on either
      side counts. */
  lemma IndicatorCountSplit(a: string, c: char, b: string)
    requires IsSpace(c)
    ensures IndicatorCount(a + [c] + b) == IndicatorCount(a) + IndicatorCount(b)
  {
    LowerConcat(a + [c], b);
    LowerConcat(a, [c]);
    assert Lower([c]) == [c];
    TokensSplitAtSpace(Lower(a), c, Lower(b));
    OccurrencesAppend(Tokens(Lower(a)), Tokens(Lower(b)));
  }

  // ---------------------------------------------------------------- tagging

  /** The tag `speech_to_text` gives to text from the English attempt, by
      ordered rules: two or more indicators mean English; otherwise any
      Devanagari means Hindi; otherwise English. */
  function Classify(text: string): (tag: Lang)
    ensures IndicatorCount(text) >= 2 ==> tag == En
    ensures tag == Hi <==> IndicatorCount(text) < 2 && IsDevanagari(text)
  {
    if IndicatorCount(text) >= 2 then En
    else if IsDevanagari(text) then Hi
    else En
  }

  /** `speech_to_text` with the two recognizer attempts as inputs: the English
      attempt is tried first and its text classified; only when it fails is the
      Hindi attempt used, tagged Hindi; when both fail there is no utterance. */
  function SpeechToText(english: Recognition, hindi: Recognition): (heard: Option<Utterance>)
    ensures heard.None? <==> english.Unrecognized? && hindi.Unrecognized?
    ensures heard.Some? ==> heard.value.text == (if english.Recognized? then english.text else hindi.text)
    ensures english.Recognized? ==> heard == Some(Utterance(english.text, Classify(english.text)))
    ensures english.Unrecognized? && heard.Some? ==> heard.value.lang == Hi
  {
    match english
    case Recognized(text) => Some(Utterance(text, Classify(text)))
    case Unrecognized =>
      match hindi
      case Recognized(text) => Some(Utterance(text, Hi))
      case Unrecognized => None
  }

  /** The Hindi attempt is never consulted once the English attempt succeeds. */
  lemma EnglishAttemptFirst(english: Recognition, hindi1: Recognition, hindi2: Recognition)
    requires english.Recognized?
    ensures SpeechToText(english, hindi1) == SpeechToText(english, hindi2)
    ensures SpeechToText(english, hindi1).Some?
  {
  }

  /** The second pass in `main`: a Hindi tag is switched to English when the
      text has three or more indicators; nothing else changes. */
  function Confirm(u: Utterance): (lang: Lang)
    ensures lang != u.lang ==> u.lang == Hi && lang == En
    ensures lang != u.lang <==> u.lang == Hi && IndicatorCount(u.text) >= 3
  {
    if u.lang == Hi && IndicatorCount(u.text) >= 3 then En else u.lang
  }

  /** The language `main` goes on with after recognition and the second pass. */
  function FinalLanguage(english: Recognition, hindi: Recognition): (lang: Option<Lang>)
    ensures lang.None? <==> SpeechToText(english, hindi).None?
  {
    match SpeechToText(english, hindi)
    case Some(u) => Some(Confirm(u))
    case None => None
  }

  /** The final tag from each route. From the English attempt it is the
      first-pass classification (the second pass never fires there); from the
      Hindi attempt it is English exactly when there are three or more
      indicators. */
  lemma FinalLanguageRoutes(english: Recognition, hindi: Recognition)
    ensures english.Recognized? ==> FinalLanguage(english, hindi) == Some(Classify(english.text))
    ensures english.Unrecognized? && hindi.Recognized? ==>
      FinalLanguage(english, hindi) == Some(if IndicatorCount(hindi.text) >= 3 then En else Hi)
  {
  }

  /** The two routes disagree on the same text exactly when it has two
      indicators, or fewer than two and no Devanagari: the English route
      says English, the Hindi route keeps Hindi. */
  lemma RouteAgreement(text: string)
    ensures var viaEnglish := FinalLanguage(Recognized(text), Unrecognized);
            var viaHindi := FinalLanguage(Unrecognized, Recognized(text));
            (viaEnglish != viaHindi <==>
               IndicatorCount(text) == 2 || (IndicatorCount(text) < 2 && !IsDevanagari(text))) &&
            (viaEnglish != viaHindi ==> viaEnglish == Some(En) && viaHindi == Some(Hi))
  {
    FinalLanguageRoutes(Recognized(text), Unrecognized);
    FinalLanguageRoutes(Unrecognized, Recognized(text));
  }
}
