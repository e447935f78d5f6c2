/**
 * The state of `TranslatorScreen` (app/index.tsx:34-37) and the handlers
 * that change it (lines 361-446, 569): the input text, the translated text
 * and the language pair. The language pair starts as English to Russian and
 * only ever gets swapped, so the two languages always differ.
 */
module Screen {
  import opened Text
  import opened Requests

  datatype Option<T> = None | Some(value: T)

  /** The input limit of line 391. */
  const MaxInputLength: nat := 5000

  const EmptyInputMessage: string := "Please enter some text to translate"
  const TooLongMessage: string := "Text is too long. Please keep it under 5000 characters."

  /** What `handleTranslate` makes of the input: the text to send, or the toast it shows instead. */
  datatype Validation = Accepted(text: string) | Refused(toast: string)

  /**
   * The checks of `handleTranslate` (lines 385-394): the input is trimmed,
   * an empty result is refused first, then one longer than 5000 characters.
   * It is accepted exactly when its trimmed form is non-empty and within the
   * limit, and then the accepted text is that trimmed form.
   */
  function ValidateInput(inputText: string): (v: Validation)
    ensures v.Accepted? <==> Trim(inputText) != [] && |Trim(inputText)| <= MaxInputLength
    ensures v.Accepted? ==> v.text == Trim(inputText)
    ensures v.Accepted? ==> v.text != [] && |v.text| <= MaxInputLength && Contains(inputText, v.text)
    ensures v.Accepted? ==> v.text[0] !in WhiteSpace && v.text[|v.text| - 1] !in WhiteSpace
    ensures v.Refused? ==> v.toast == (if Trim(inputText) == [] then EmptyInputMessage else TooLongMessage)
  {
    var trimmedText := Trim(inputText);
    if trimmedText == [] then Refused(EmptyInputMessage)
    else if |trimmedText| > MaxInputLength then Refused(TooLongMessage)
    else Accepted(trimmedText)
  }

  /** An accepted text passes the checks again unchanged. */
  lemma ValidateInputStable(inputText: string)
    requires ValidateInput(inputText).Accepted?
    ensures ValidateInput(ValidateInput(inputText).text) == ValidateInput(inputText)
  {
    TrimIdempotent(inputText);
  }

  /**
   * The translate button is enabled (line 592) when no translation is
   * pending and the trimmed input is non-empty; pressing it then never shows
   * the empty-input toast, and it is refused only for a text over the limit.
   */
  predicate TranslateEnabled(inputText: string, isPending: bool)
  {
    !isPending && Trim(inputText) != []
  }

  lemma EnabledButtonNeverEmpty(inputText: string, isPending: bool)
    requires TranslateEnabled(inputText, isPending)
    ensures ValidateInput(inputText) != Refused(EmptyInputMessage)
    ensures ValidateInput(inputText).Accepted? <==> |Trim(inputText)| <= MaxInputLength
  {
    assert |EmptyInputMessage| != |TooLongMessage|;
  }

  /**
   * The text a request accepted by `handleTranslate` carries reaches the
   * model unchanged: trimming it again in `makeRequest` (line 198) is a no-op.
   */
  lemma AcceptedTextSentAsIs(inputText: string, sourceLang: Language, targetLang: Language)
    requires ValidateInput(inputText).Accepted?
    ensures var r := TranslationRequest(ValidateInput(inputText).text, sourceLang, targetLang);
      RequestMessages(r)[1] == User(r.text)
  {
    TrimIdempotent(inputText);
    RequestSendsTrimmedText(TranslationRequest(ValidateInput(inputText).text, sourceLang, targetLang));
  }

  /** The other language of the pair. */
  function Other(lang: Language): (other: Language)
    ensures other != lang
  {
    if lang == En then Ru else En
  }

  class TranslatorScreen {
    var inputText: string
    var translatedText: string
    var sourceLang: Language
    var targetLang: Language

    /** The invariant every handler keeps: the two languages differ. */
    predicate Valid()
      reads this
    {
      sourceLang != targetLang
    }

    /** The initial state of lines 34-37: empty texts, English to Russian. */
    constructor()
      ensures Valid()
      ensures inputText == [] && translatedText == []
      ensures sourceLang == En && targetLang == Ru
    {
      inputText := [];
      translatedText := [];
      sourceLang := En;
      targetLang := Ru;
    }

    /** `onChangeText={setInputText}` (line 569). */
    method SetInputText(text: string)
      requires Valid()
      modifies this
      ensures Valid()
      ensures inputText == text
      ensures translatedText == old(translatedText)
      ensures sourceLang == old(sourceLang) && targetLang == old(targetLang)
    {
      inputText := text;
    }

    /**
     * `handleTranslate` (lines 384-409). A refused input shows its toast and
     * changes nothing. An accepted one clears the previous translation and
     * starts a request for the trimmed text in the current language pair,
     * whose languages therefore differ.
     */
    method HandleTranslate() returns (request: Option<TranslationRequest>, toast: Option<string>)
      requires Valid()
      modifies this
      ensures Valid()
      ensures inputText == old(inputText)
      ensures sourceLang == old(sourceLang) && targetLang == old(targetLang)
      ensures match ValidateInput(old(inputText))
        case Accepted(text) =>
          && request == Some(TranslationRequest(text, sourceLang, targetLang))
          && toast == None
          && translatedText == []
        case Refused(message) =>
          && request == None
          && toast == Some(message)
          && translatedText == old(translatedText)
      ensures request.Some? ==> request.value.sourceLang != request.value.targetLang
    {
      var trimmedText := Trim(inputText);
      if trimmedText == [] {
        return None, Some(EmptyInputMessage);
      }
      if |trimmedText| > MaxInputLength {
        return None, Some(TooLongMessage);
      }
      translatedText := [];
      request := Some(TranslationRequest(trimmedText, sourceLang, targetLang));
      toast := None;
    }

    /**
     * `handleSwapLanguages` (lines 411-423): the languages change places and
     * both texts are cleared.
     */
    method HandleSwapLanguages()
      requires Valid()
      modifies this
      ensures Valid()
      ensures sourceLang == old(targetLang) && targetLang == old(sourceLang)
      ensures sourceLang == Other(old(sourceLang)) && targetLang == Other(old(targetLang))
      ensures inputText == [] && translatedText == []
    {
      var tempLang := sourceLang;
      sourceLang := targetLang;
      targetLang := tempLang;
      inputText := [];
      translatedText := [];
    }

    /** `handleClear` (lines 440-446): both texts are cleared, the languages stay. */
    method HandleClear()
      requires Valid()
      modifies this
      ensures Valid()
      ensures inputText == [] && translatedText == []
      ensures sourceLang == old(sourceLang) && targetLang == old(targetLang)
    {
      inputText := [];
      translatedText := [];
    }

    /**
     * `onSuccess` and `onError` of the mutation (lines 361-381): a
     * translation is shown; an error shows its message as a toast and empties
     * the translation.
     */
    method OnSettled(outcome: Attempt) returns (toast: Option<string>)
      requires Valid()
      modifies this
      ensures Valid()
      ensures outcome.Translated? ==> translatedText == outcome.translation && toast == None
      ensures outcome.Failed? ==> translatedText == [] && toast == Some(outcome.message)
      ensures inputText == old(inputText)
      ensures sourceLang == old(sourceLang) && targetLang == old(targetLang)
    {
      match outcome
      case Translated(translation) =>
        translatedText := translation;
        toast := None;
      case Failed(message) =>
        translatedText := [];
        toast := Some(message);
    }
  }

  /**
   * A session: swapping twice restores the language pair, and a request
   * started afterwards sends the English-to-Russian prompt exactly when its
   * result gets the Russian corrections.
   */
  method SwapTwiceThenTranslate(text: string) returns (request: Option<TranslationRequest>)
    ensures ValidateInput(text).Accepted? ==> request == Some(TranslationRequest(ValidateInput(text).text, En, Ru))
    ensures ValidateInput(text).Refused? ==> request == None
    ensures request.Some? ==> (SystemPrompt(request.value.sourceLang) == EnglishToRussianPrompt <==> IsToRussian(request.value))
  {
    var screen := new TranslatorScreen();
    screen.HandleSwapLanguages();
    screen.HandleSwapLanguages();
    screen.SetInputText(text);
    var toast;
    request, toast := screen.HandleTranslate();
    if request.Some? {
      PromptMatchesCorrections(request.value);
    }
  }
}
