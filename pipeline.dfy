/** One run of the voice pipeline around the language heuristic: recognition,
    the second-pass language check, translation into English when needed, the
    generated reply and its cleaning, and translation back. The recognizer,
    translator and generator are remote services; they appear here as the
    outcomes they deliver. */
module Pipeline {
  import opened Wrappers
  import opened PythonText
  import opened LanguageHeuristic

  // ------------------------------------------------------------ translation

  /** The outcome of one call to the translation service: its translation, or
      the exception it raised. */
  datatype Translation = Translated(text: string) | TranslationFailed

  /** The translation service: text, source language, target language. */
  type Translator = (string, Lang, Lang) -> Translation

  /** `translate_text`: no service call when source and target agree; the
      service's translation when it answers; the input itself when it fails. */
  function TranslateText(translator: Translator, text: string, source: Lang, target: Lang): (r: string)
    ensures source == target ==> r == text
    ensures source != target ==>
      r == (if translator(text, source, target).Translated? then translator(text, source, target).text else text)
  {
    if source == target then text
    else
      match translator(text, source, target)
      case Translated(t) => t
      case TranslationFailed => text
  }

  /** With equal source and target the service is not consulted at all: any two
      translators give the same, unchanged, text. */
  lemma SameLanguageNeedsNoTranslator(t1: Translator, t2: Translator, text: string, lang: Lang)
    ensures TranslateText(t1, text, lang, lang) == TranslateText(t2, text, lang, lang) == text
  {
  }

  /** A failing service never loses the text: the result is the input. */
  lemma FailedTranslationKeepsText(translator: Translator, text: string, source: Lang, target: Lang)
    requires translator(text, source, target).TranslationFailed?
    ensures TranslateText(translator, text, source, target) == text
  {
  }

  // --------------------------------------------------------------- cleaning

  /** A character `clean_text` keeps: an ASCII letter, an ASCII digit, or
      whitespace (the class `[a-zA-Z0-9\s]`). */
  predicate IsKept(c: char) {
    ('a' <= c <= 'z') || ('A' <= c <= 'Z') || ('0' <= c <= '9') || IsSpace(c)
  }

  predicate IsClean(s: string) {
    forall i :: 0 <= i < |s| ==> IsKept(s[i])
  }

  /** `clean_text`: `re.sub` of `[^a-zA-Z0-9\s]` by the empty string, which
      deletes every character outside the kept class, left to right. */
  function CleanText(s: string): (r: string)
    ensures IsClean(r)
    ensures |r| <= |s|
  {
    if s == [] then []
    else (if IsKept(s[0]) then [s[0]] else []) + CleanText(s[1..])
  }

  /** Cleaning works character by character: the result for a concatenation is
      the concatenation of the results, so kept characters stay in order. */
  lemma {:induction false} CleanTextConcat(a: string, b: string)
    ensures CleanText(a + b) == CleanText(a) + CleanText(b)
  {
    if a == [] {
      assert a + b == b;
    } else {
      var head := if IsKept(a[0]) then [a[0]] else [];
      assert (a + b)[0] == a[0];
      assert (a + b)[1..] == a[1..] + b;
      assert CleanText(a + b) == head + CleanText(a[1..] + b);
      assert CleanText(a) == head + CleanText(a[1..]);
      CleanTextConcat(a[1..], b);
      assert head + (CleanText(a[1..]) + CleanText(b)) == (head + CleanText(a[1..])) + CleanText(b);
    }
  }

  /** Cleaning changes a text exactly when it holds a character outside the
      kept class. */
  lemma {:induction false} CleanTextFixesCleanText(s: string)
    ensures CleanText(s) == s <==> IsClean(s)
  {
    if s != [] {
      CleanTextFixesCleanText(s[1..]);
      if IsKept(s[0]) {
        assert IsClean(s) <==> IsClean(s[1..]) by {
          assert forall i :: 1 <= i < |s| ==> s[i] == s[1..][i - 1];
        }
      } else {
        assert |CleanText(s)| < |s|;
      }
    }
  }

  /** Cleaning twice is cleaning once. */
  lemma CleanTextIdempotent(s: string)
    ensures CleanText(CleanText(s)) == CleanText(s)
  {
    CleanTextFixesCleanText(CleanText(s));
  }

  /** Every kept character survives with its multiplicity; every other
      character is gone. */
  lemma {:induction false} CleanTextCounts(s: string, c: char)
    ensures multiset(CleanText(s))[c] == if IsKept(c) then multiset(s)[c] else 0
  {
    if s != [] {
      CleanTextCounts(s[1..], c);
      assert s == [s[0]] + s[1..];
      assert multiset(s) == multiset([s[0]]) + multiset(s[1..]);
    }
  }

  // ------------------------------------------------------------- generation

  /** The outcome of one call to the generative model: a reply with text, a
      reply without a `text` attribute, or an exception. */
  datatype Generation = Generated(text: string) | NoText | GenerationFailed

  /** The generative model, as a function of the English input text (the
      prompt is built from it). */
  type Generator = string -> Generation

  const NoTextReply: string := "Error generating response."
  const FailureReply: string := "I couldn't generate a response at this time."

  /** `generate_response_with_gemini`: the cleaned reply text, or a fixed
      fallback message. */
  function GenerateResponse(gemini: Generator, text: string): (reply: string)
    ensures gemini(text).Generated? ==> reply == CleanText(gemini(text).text)
    ensures gemini(text).NoText? ==> reply == NoTextReply
    ensures gemini(text).GenerationFailed? ==> reply == FailureReply
  {
    match gemini(text)
    case Generated(raw) => CleanText(raw)
    case NoText => NoTextReply
    case GenerationFailed => FailureReply
  }

  /** A generated reply is always clean, so only ASCII letters, digits and
      whitespace reach speech synthesis from the model. */
  lemma GeneratedReplyIsClean(gemini: Generator, text: string)
    requires gemini(text).Generated?
    ensures IsClean(GenerateResponse(gemini, text))
    ensures CleanText(GenerateResponse(gemini, text)) == GenerateResponse(gemini, text)
  {
    CleanTextIdempotent(gemini(text).text);
  }

  // ------------------------------------------------------------------- main

  /** What one run of `main` does: nothing, when no text was recognized; or the
      English text handed to the generator, its reply, the text handed to
      speech synthesis and the language it is spoken in. */
  datatype Turn =
    | Aborted
    | Spoken(query: string, reply: string, speech: string, lang: Lang)

  /** `main`, with the recognizer, translator and generator outcomes as
      inputs. The detected language is re-checked in place, and the text to
      send and the text to speak are chosen by branch assignment. */
  method Converse(english: Recognition, hindi: Recognition, translator: Translator, gemini: Generator)
    returns (turn: Turn)
    ensures var heard := SpeechToText(english, hindi);
            turn.Aborted? <==> heard.None? || heard.value.text == ""
    ensures turn.Spoken? ==>
              var text := SpeechToText(english, hindi).value.text;
              && Some(turn.lang) == FinalLanguage(english, hindi)
              && turn.reply == GenerateResponse(gemini, turn.query)
              && (turn.lang == En ==> turn.query == text && turn.speech == turn.reply)
              && (turn.lang == Hi ==>
                    && turn.query == TranslateText(translator, text, Hi, En)
                    && turn.speech == TranslateText(translator, turn.reply, En, Hi))
  {
    var heard := SpeechToText(english, hindi);
    if heard.None? || heard.value.text == "" {
      return Aborted;
    }
    var text := heard.value.text;
    var detected := heard.value.lang;

    if detected == Hi {
      var indicators := ContainsEnglishIndicators(text);
      if indicators >= 3 {
        detected := En;
      }
    }

    var englishText;
    if detected == Hi {
      englishText := TranslateText(translator, text, Hi, En);
    } else {
      englishText := text;
    }

    var responseText := GenerateResponse(gemini, englishText);

    var translatedResponse;
    if detected == Hi {
      translatedResponse := TranslateText(translator, responseText, En, Hi);
    } else {
      translatedResponse := responseText;
    }

    turn := Spoken(englishText, responseText, translatedResponse, detected);
  }
}
