# English/Hindi language heuristic of a voice-assistant pipeline

This project models the core of a small voice assistant, `app.py`. The assistant
records one utterance and transcribes it, trying English first and Hindi second.
It decides whether the utterance is English or Hindi, and translates it to
English when it is Hindi. It asks a generative model for a reply, cleans the
reply, translates the reply back when the utterance was Hindi, and speaks it.

The bespoke logic is the language decision. It has three parts:

- a script detector, which looks for any character in the Devanagari block
  U+0900–U+097F;
- an indicator counter, which counts whitespace-separated tokens of the
  lower-cased text that are in a fixed list of 66 English function words;
- a tagging rule for the English recognition attempt (two or more indicators
  give English, otherwise Devanagari gives Hindi, otherwise English), plus a
  second pass in `main` that switches a Hindi tag to English only when there
  are three or more indicators.

The model covers these, the translation adapter's short-circuit and failure
fallback, `clean_text`, and the order of steps in `main`. The remote services
are not called. Each one is an input that gives its outcome:

- the two recognition attempts are `Recognition` values;
- the translator is a function giving a `Translation`;
- the generative model is a function giving a `Generation`.

Modules:

- `Wrappers` (`wrappers.dfy`): `Option`.
- `PythonText` (`python_text.dfy`): the Python built-ins the heuristic relies
  on. `str.isspace()` (the same class as the regex `\s` for `str` patterns),
  ASCII `str.lower()`, and `str.split()` with no separator, written as a
  left-to-right scan.
- `LanguageHeuristic` (`heuristic.dfy`): `ENGLISH_INDICATORS`, `is_devanagari`,
  `contains_english_indicators` (an imperative loop proved against the
  specification function `IndicatorCount`), the tagging branch of
  `speech_to_text`, the second pass, and lemmas about them.
- `HeuristicExamples` (`heuristic_examples.dfy`): the count of texts built
  from known tokens, and worked examples of the tagging rules.
- `Pipeline` (`pipeline.dfy`): `translate_text`, `clean_text`, the outcome
  handling of `generate_response_with_gemini`, and `main` as the method
  `Converse`.

Decisions worth knowing:

- Lower-casing is ASCII only. Python's `lower()` is Unicode-aware. Among
  non-ASCII characters, only U+212A KELVIN SIGN lower-cases to a single ASCII
  letter (`k`). U+0130 lower-cases to `i` followed by a combining dot, which is
  not ASCII. No indicator contains `k` (`IndicatorsAreLowerWords` proves every
  indicator is made of `a`–`z`). So the indicator count is the same under either
  lower-casing. This is argued here, not proved.
- Whitespace is one fixed set: CPython's whitespace characters. These are
  U+0009–U+000D, U+001C–U+0020, U+0085, U+00A0, U+1680, U+2000–U+200A, U+2028,
  U+2029, U+202F, U+205F and U+3000. Both `split()` and `\s` use this set.
- The list is written as the concatenation of its seven source lines. Its
  order and its contents are those of `app.py:23-31`.
- Facts about the code that a reader of the source may not expect:
  - Every occurrence of an indicator counts, so `"the the"` scores 2.
  - The code lower-cases the whole text, then splits it. Lower-casing never
    creates or removes whitespace, so this is the same as lower-casing each
    token.
  - `"the quick brown fox"` scores 1 with this list: only `the` is an
    indicator. The example of the 2-versus-3 asymmetry here is `"this is"`.
  - The final tag depends on which recognition attempt produced the text.
    `RouteAgreement` states exactly when the two attempts disagree: two
    indicators, or fewer than two with no Devanagari.
  - `main` also stops when the recognized text is the empty string
    (`if not text`), not only when recognition failed.
  - There are two distinct fallback replies: one for a reply without text and
    one for an exception.

## Model

| member | source | states |
|---|---|---|
| PythonText.Lower | app.py:40 | lower-casing keeps the length and maps each character by itself: A–Z to a–z, everything else unchanged, whitespace stays whitespace |
| PythonText.TokensAreWords | app.py:40 | every token of `split()` is non-empty and free of whitespace |
| PythonText.TokensConcat | app.py:40 | the tokens glued together are the input with its whitespace deleted, in order |
| PythonText.TokensEmpty | app.py:40 | `split()` gives no tokens exactly when the text is all whitespace, the empty text included |
| PythonText.TokensUnwords | app.py:40 | `" ".join(ws).split() == ws` for every list of proper tokens (split inverts join) |
| PythonText.TokensSplitAtSpace | app.py:40 | a whitespace character separates tokens: the tokens of `a + c + b` are those of `a` followed by those of `b` |
| LanguageHeuristic.IndicatorsAreLowerWords | app.py:23-31 | the list has 66 entries, each a non-empty run of `a`–`z`, hence a lower-case token that splitting can produce |
| LanguageHeuristic.NonLetterWordIsNotIndicator | app.py:43 | a token with any character outside `a`–`z` (punctuation, digit, capital, non-ASCII) never matches |
| LanguageHeuristic.IsDevanagari | app.py:33-36 | true exactly when some character of the text has a code point in U+0900..U+097F |
| LanguageHeuristic.AsciiIsNotDevanagari | app.py:33-36 | ASCII-only text, the empty text included, has no Devanagari |
| LanguageHeuristic.Occurrences | app.py:42-44 | the number of matching tokens never exceeds the number of tokens |
| LanguageHeuristic.OccurrencesAppend | app.py:42-44 | the count of a concatenated token list is the sum of the counts |
| LanguageHeuristic.OccurrencesPermutation | app.py:42-44 | the count does not depend on token order: token lists with the same multiset score the same |
| LanguageHeuristic.OccurrencesAllIndicators | app.py:42-44 | a token list made only of indicators scores its full length, each occurrence counted |
| LanguageHeuristic.ContainsEnglishIndicators | app.py:38-45 | the loop returns the number of whitespace-separated tokens of the lower-cased text that are list members, at most the token count |
| LanguageHeuristic.IndicatorCountBlank | app.py:38-45 | the count is 0 for the empty text and for all-whitespace text |
| LanguageHeuristic.IndicatorCountIgnoresCase | app.py:40 | matching is case-insensitive: lower-casing the text first does not change the count |
| LanguageHeuristic.IndicatorCountSplit | app.py:40-44 | counts add up across a whitespace character |
| HeuristicExamples.IndicatorCountOfWords | app.py:38-45 | text made of lower-case tokens joined by spaces scores exactly the number of those tokens that are indicators |
| HeuristicExamples.RepeatedIndicatorsCount | app.py:42-44 | `"the the"` scores 2 |
| HeuristicExamples.PunctuatedTokenDoesNotCount | app.py:43 | `"the,"` scores 0 |
| HeuristicExamples.TwoIndicators | app.py:38-45 | `"this is"` scores 2 |
| LanguageHeuristic.Classify | app.py:64-76 | English attempt's tag: ≥ 2 indicators give `en` whatever the script; `hi` exactly when < 2 indicators and Devanagari present; `en` otherwise |
| LanguageHeuristic.SpeechToText | app.py:60-88 | no utterance exactly when both attempts fail; when the English attempt succeeds the utterance is its text tagged `Classify(text)`; otherwise it is the Hindi attempt's text, always tagged `hi` |
| LanguageHeuristic.EnglishAttemptFirst | app.py:60-88 | once the English attempt succeeds, the Hindi attempt's outcome has no influence |
| LanguageHeuristic.Confirm | app.py:179-184 | the second pass changes a tag only from `hi` to `en`, and does so exactly when the tag is `hi` and the count is ≥ 3; an `en` tag is never changed |
| LanguageHeuristic.FinalLanguage | app.py:171-184 | a final tag (always `en` or `hi`) exists exactly when recognition produced an utterance |
| LanguageHeuristic.FinalLanguageRoutes | app.py:179-184 | via the English attempt the final tag is the first-pass tag (the second pass never fires); via the Hindi attempt it is `en` exactly when the count is ≥ 3 |
| LanguageHeuristic.RouteAgreement | app.py:179-184 | the two routes give different final tags on the same text exactly when the count is 2, or below 2 with no Devanagari; then the English route says `en` and the Hindi route `hi` |
| HeuristicExamples.TwoVersusThree | app.py:179-184 | the 2-versus-3 asymmetry on `"this is"`: count 2, `en` from the English attempt, still `hi` from the Hindi attempt |
| HeuristicExamples.DevanagariOnlyIsHindi | app.py:70-73 | a Devanagari-only text from the English attempt is tagged `hi` |
| Pipeline.TranslateText | app.py:90-102 | equal source and target return the input; otherwise the service's translation, or the input when the service fails |
| Pipeline.SameLanguageNeedsNoTranslator | app.py:92-93 | with equal languages the result is the input whatever the translator, so no service is consulted |
| Pipeline.FailedTranslationKeepsText | app.py:100-102 | a failing service yields the original text |
| Pipeline.CleanText | app.py:113-115 | the result holds only ASCII letters, ASCII digits and whitespace, and is no longer than the input |
| Pipeline.CleanTextConcat | app.py:115 | cleaning distributes over concatenation, so the kept characters stay in input order |
| Pipeline.CleanTextFixesCleanText | app.py:115 | cleaning leaves a text unchanged exactly when it already holds only kept characters |
| Pipeline.CleanTextIdempotent | app.py:115 | `clean_text(clean_text(s)) == clean_text(s)` |
| Pipeline.CleanTextCounts | app.py:115 | each kept character survives with its multiplicity; every other character is removed |
| Pipeline.GenerateResponse | app.py:140-148 | a reply with text gives its cleaned text; a reply without text gives `"Error generating response."`; an exception gives the apology message |
| Pipeline.GeneratedReplyIsClean | app.py:140-142 | a generated reply contains only kept characters and is a fixed point of cleaning |
| Pipeline.Converse | app.py:169-203 | the run aborts exactly when no utterance or an empty text was recognized. Otherwise the spoken language is the final tag. The generator gets the recognized text untranslated when the tag is `en`, or translated hi→en when it is `hi`. The spoken text is the reply, translated en→hi only when the tag is `hi` |

## Left out

- Audio capture (microphone, ambient-noise adjustment, `listen`) and playback
  (gTTS synthesis, pygame, removing the temporary file): device I/O and
  foreign libraries. `Converse` records the text and language handed to
  synthesis. It does not model synthesis failures.
- The network services (`recognize_google`, `GoogleTranslator`, the Gemini
  model) are not called. Each is an input giving its outcome. Every recognizer
  exception becomes `Unrecognized`, and every translator exception becomes
  `TranslationFailed`.
- The prompt text and the generation settings (`max_output_tokens`, the
  floating-point `temperature` and `top_p`). The generator is an arbitrary
  function of the English text.
- Start-up: reading the API key from the environment and the fatal error when
  it is missing, `genai.configure`, `pygame.mixer.init` and the langdetect seed.
  These are process environment and library set-up.
- Console output (`print`).
- `lang_detect.py`: a wrapper over the external `langdetect.detect` and a
  recognizer loop driven by external calls and exceptions. It is not part of
  this model.
- `google_trans.py`: microphone, recognizer, gTTS and `os.system` I/O only. It
  is not part of this model.
- PythonText.Lower: does not model Unicode lower-casing beyond ASCII. The
  indicator count is unaffected, for the reason given above.
- Python strings may hold lone surrogates, which Dafny's `char` cannot. A
  recognizer never returns them.
