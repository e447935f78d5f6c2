/**
 * The translation request of `mutationFn` (app/index.tsx:141-359): one
 * attempt (`makeRequest`) turns the outcome of a POST to the language-model
 * endpoint into a translation or an error message, and the retry block runs a
 * second attempt after a 3000 ms wait when the first message looks like a
 * network problem. Error messages are the only error channel, and every
 * decision about them is a case-sensitive substring test on the message.
 */
module Requests {
  import opened Text
  import opened Normalizer
  import opened Corrections

  /** `Language` (line 25). */
  datatype Language = En | Ru

  /** The argument of `mutationFn` (lines 27-31). */
  datatype TranslationRequest = TranslationRequest(text: string, sourceLang: Language, targetLang: Language)

  /**
   * The two system prompts of lines 145-186. Their wording is instruction
   * text for the language model and is kept opaque; only which one is sent
   * matters here.
   */
  datatype Prompt = EnglishToRussianPrompt | RussianToEnglishPrompt

  /** One entry of the `messages` array of the request body. */
  datatype ChatMessage = System(prompt: Prompt) | User(content: string)

  /** The prompt choice of line 145: on `sourceLang` alone. */
  function SystemPrompt(sourceLang: Language): Prompt
  {
    if sourceLang == En then EnglishToRussianPrompt else RussianToEnglishPrompt
  }

  /** The `messages` of the request body (lines 195-200): the prompt, then the trimmed text. */
  function RequestMessages(r: TranslationRequest): seq<ChatMessage>
  {
    [System(SystemPrompt(r.sourceLang)), User(Trim(r.text))]
  }

  /** The flag handed to `applyCustomCorrections` (line 294): on `targetLang` alone. */
  predicate IsToRussian(r: TranslationRequest)
  {
    r.targetLang == Ru
  }

  /**
   * For a request whose languages differ, the English-to-Russian prompt is
   * sent exactly when the Russian corrections are applied, so the two
   * independent tests of lines 145 and 294 agree.
   */
  lemma PromptMatchesCorrections(r: TranslationRequest)
    requires r.sourceLang != r.targetLang
    ensures SystemPrompt(r.sourceLang) == EnglishToRussianPrompt <==> IsToRussian(r)
  {
  }

  /**
   * The user message carries the request text without surrounding
   * whitespace, and a text that is already trimmed is sent as it is.
   */
  lemma RequestSendsTrimmedText(r: TranslationRequest)
    ensures RequestMessages(r)[1].content == Trim(r.text)
    ensures Trim(RequestMessages(r)[1].content) == RequestMessages(r)[1].content
    ensures Trim(r.text) == r.text ==> RequestMessages(r)[1] == User(r.text)
  {
    TrimIdempotent(r.text);
  }

  /** `Platform.OS === 'web'` or not. */
  datatype Platform = Web | Native

  /** A value thrown inside `makeRequest`: an `Error` with its `name` and `message`, or anything else. */
  datatype Thrown = Raised(name: string, message: string) | NotAnError

  /**
   * The body of a 2xx response as `makeRequest` inspects it (lines 262-282):
   * `JSON.parse` fails; the value is falsy or not an object; its `completion`
   * is falsy other than the empty string (missing, `null`, `0`, `false`); it is
   * truthy but not a string, so calling `trim` on it throws a `TypeError` with
   * the engine's message; or it is a string (the empty string is falsy too).
   */
  datatype Body =
    | Unparsable
    | NotAnObject
    | NoCompletion
    | CompletionNotText(typeErrorMessage: string)
    | CompletionText(text: string)

  /**
   * What one `fetch` of the endpoint produced. `Rejected`: `fetch` or a read
   * of the body threw (an `AbortError` when the 30-second timer aborted the
   * request). `Responded`: a response with its status, the error details read
   * from a non-ok body (`""` when reading them failed) and the parsed body of
   * an ok one.
   */
  datatype Exchange =
    | Rejected(thrown: Thrown)
    | Responded(status: nat, errorDetails: string, body: Body)

  /** How one attempt ends: `makeRequest` resolves with a translation or rejects with an `Error`. */
  datatype Attempt = Translated(translation: string) | Failed(message: string)

  // ---------------------------------------------------------------------------
  // Messages
  // ---------------------------------------------------------------------------

  // The status ladder (lines 241-259).
  const ServerErrorMessage: string := "Server error" + ". The translation" + " service is" + " experiencing issues."
  const UnavailableMessage: string := "Service unavailable" + ". Please try again " + "in a moment."
  const GatewayTimeoutMessage: string := "Request " + "timed out" + ". Try a shorter text."
  const TooManyRequestsMessage: string := "Too many requests" + ". Please wait a moment."
  const InvalidRequestMessage: string := "Invalid request" + ". Please try different text."
  const AccessDeniedMessage: string := "Access denied" + ". Please try again."
  const NotFoundMessage: string := "Translation" + " service" + " not found."

  /** `Server error (${status}). Please try again.` */
  function OtherServerErrorMessage(status: nat): string
  {
    "Server error (" + Decimal(status) + "). Please try again."
  }

  /** `Translation failed (${status}). ${errorDetails || 'Please try again.'}` */
  function ClientErrorMessage(status: nat, errorDetails: string): string
  {
    "Translation failed (" + Decimal(status) + "). " + (if errorDetails == [] then "Please try again." else errorDetails)
  }

  // The checks on an ok body (lines 266-281).
  const InvalidResponseMessage: string := "Invalid response from server" + ". Please try again."
  const InvalidFormatMessage: string := "Invalid response format"
  const NoTranslationMessage: string := "No translation received"

  // The rewrites of the catch block (lines 298-327).
  const TimeoutMessage: string := "Request " + "timed out" + ". Please check your " + "connection" + " and try again."
  const WebConnectionMessage: string := "Connection" + " error. Please" + " check your" + " internet or try" + " refreshing the page."
  const NativeConnectionMessage: string := "Cannot " + "connect" + " to translation service. Please check your internet connection."
  const BlockedMessage: string := "Connection" + " blocked. Please" + " try again."
  const GenericMessage: string := "Translation failed. Please check your " + "connection" + " and try again."

  /** The message that replaces a second failure (line 354); it ends in U+1F4A1. */
  const ConnectionFailedMessage: string := "Connection failed. Please check your internet and try again " + "\U{1F4A1}"

  // ---------------------------------------------------------------------------
  // The substring tests
  // ---------------------------------------------------------------------------

  /** The catch block lets an error through unchanged when its message contains one of these (lines 316-321). */
  predicate PassesThrough(message: string)
  {
    || Contains(message, "Server error")
    || Contains(message, "Service")
    || Contains(message, "Translation")
    || Contains(message, "Network")
    || Contains(message, "Request")
    || Contains(message, "Access")
  }

  /** `isNetworkError` of the first failure (lines 335-340). */
  predicate IsNetworkError(message: string)
  {
    || Contains(message, "Network")
    || Contains(message, "connection")
    || Contains(message, "connect")
    || Contains(message, "Failed to fetch")
    || Contains(message, "timed out")
  }

  /** A fetch failure the catch block recognises (line 303). */
  predicate IsFetchFailure(message: string)
  {
    Contains(message, "Failed to fetch") || Contains(message, "Network request failed")
  }

  lemma ConnectionContainsConnect(s: string)
    ensures Contains(s, "connection") ==> Contains(s, "connect")
  {
    if Contains(s, "connection") {
      ContainsPrefix(s, "connection", 7);
      assert "connection"[..7] == "connect";
    }
  }

  /** A message without "connect" and lacking a character of each other keyword is not network-like. */
  lemma NotNetworkError(s: string, n: char, f: char, t: char)
    requires n in "Network" && n !in s
    requires f in "Failed to fetch" && f !in s
    requires t in "timed out" && t !in s
    requires !Contains(s, "connect")
    ensures !IsNetworkError(s)
  {
    MissingCharNotContained(s, "Network", n);
    MissingCharNotContained(s, "Failed to fetch", f);
    MissingCharNotContained(s, "timed out", t);
    ConnectionContainsConnect(s);
  }

  /** A message lacking a character of each keyword of line 316-321 does not pass through. */
  lemma DoesNotPassThrough(s: string, t: char)
    requires 'S' !in s && 'N' !in s && 'R' !in s && 'A' !in s
    requires t in "Translation" && t !in s
    ensures !PassesThrough(s)
  {
    MissingCharNotContained(s, "Server error", 'S');
    MissingCharNotContained(s, "Service", 'S');
    MissingCharNotContained(s, "Translation", t);
    MissingCharNotContained(s, "Network", 'N');
    MissingCharNotContained(s, "Request", 'R');
    MissingCharNotContained(s, "Access", 'A');
  }

  // Each message's keyword facts are proved in small steps: a lemma per
  // handful of letters the message lacks (a keyword with a missing letter
  // cannot occur), a lemma per keyword chained through the message's pieces,
  // and a `...Facts` lemma that gathers them.

  lemma ServerErrorMessageMentionsServerError()
    ensures Contains(ServerErrorMessage, "Server error")
  {
    var a := "Server error";
    ContainsItself(a);
    ContainsInLeft(a, ". The translation", a);
    ContainsInLeft(a + ". The translation", " service is", a);
    ContainsInLeft(a + ". The translation" + " service is", " experiencing issues.", a);
  }

  lemma ServerErrorMessageLacksConnect()
    ensures !Contains(ServerErrorMessage, "connect")
  {
    var a := "Server error";
    MissingCharNotContained(a, "connect", 'c');
    MissingCharNotContained(". The translation", "connect", 'c');
    MissingCharNotContained(" service is", "connect", 'o');
    MissingCharNotContained(" experiencing issues.", "connect", 'o');
    NotContainedEitherSide(a, ". The translation", "connect");
    NotContainedEitherSide(a + ". The translation", " service is", "connect");
    NotContainedEitherSide(a + ". The translation" + " service is", " experiencing issues.", "connect");
  }

  lemma ServerErrorMessageAvoidsLetters()
    ensures Avoids(ServerErrorMessage, {'N', 'F', 'm', 'C'})
  {
    var cs := {'N', 'F', 'm', 'C'};
    AvoidsConcat("Server error", ". The translation", cs);
    AvoidsConcat("Server error" + ". The translation", " service is", cs);
    AvoidsConcat("Server error" + ". The translation" + " service is", " experiencing issues.", cs);
  }

  lemma ServerErrorMessageFacts()
    ensures Contains(ServerErrorMessage, "Server error")
    ensures !Contains(ServerErrorMessage, "CORS")
    ensures !IsNetworkError(ServerErrorMessage)
  {
    ServerErrorMessageMentionsServerError();
    ServerErrorMessageLacksConnect();
    ServerErrorMessageAvoidsLetters();
    MissingCharNotContained(ServerErrorMessage, "CORS", 'C');
    NotNetworkError(ServerErrorMessage, 'N', 'F', 'm');
  }

  lemma UnavailableMessageMentionsService()
    ensures Contains(UnavailableMessage, "Service")
  {
    var a := "Service unavailable";
    ContainsItself(a);
    ContainsPrefix(a, a, 7);
    assert a[..7] == "Service";
    ContainsInLeft(a, ". Please try again ", "Service");
    ContainsInLeft(a + ". Please try again ", "in a moment.", "Service");
  }

  lemma UnavailableMessageLacksServerError()
    ensures !Contains(UnavailableMessage, "Server error")
  {
    var a := "Service unavailable";
    MissingCharNotContained(a, "Server error", 'o');
    MissingCharNotContained(". Please try again ", "Server error", 'S');
    MissingCharNotContained("in a moment.", "Server error", 'S');
    NotContainedEitherSide(a, ". Please try again ", "Server error");
    NotContainedEitherSide(a + ". Please try again ", "in a moment.", "Server error");
  }

  lemma UnavailableMessageLacksConnect()
    ensures !Contains(UnavailableMessage, "connect")
  {
    var a := "Service unavailable";
    MissingCharNotContained(a, "connect", 'o');
    MissingCharNotContained(". Please try again ", "connect", 'c');
    MissingCharNotContained("in a moment.", "connect", 'c');
    NotContainedEitherSide(a, ". Please try again ", "connect");
    NotContainedEitherSide(a + ". Please try again ", "in a moment.", "connect");
  }

  lemma UnavailableMessageAvoidsLetters()
    ensures Avoids(UnavailableMessage, {'N', 'F', 'd', 'C'})
  {
    var cs := {'N', 'F', 'd', 'C'};
    AvoidsConcat("Service unavailable", ". Please try again ", cs);
    AvoidsConcat("Service unavailable" + ". Please try again ", "in a moment.", cs);
  }

  lemma UnavailableMessageFacts()
    ensures Contains(UnavailableMessage, "Service")
    ensures !Contains(UnavailableMessage, "Server error")
    ensures !Contains(UnavailableMessage, "CORS")
    ensures !IsNetworkError(UnavailableMessage)
  {
    UnavailableMessageMentionsService();
    UnavailableMessageLacksServerError();
    UnavailableMessageLacksConnect();
    UnavailableMessageAvoidsLetters();
    MissingCharNotContained(UnavailableMessage, "CORS", 'C');
    NotNetworkError(UnavailableMessage, 'N', 'F', 'd');
  }

  lemma GatewayTimeoutMessageMentionsRequest()
    ensures Contains(GatewayTimeoutMessage, "Request")
  {
    var a := "Request ";
    ContainsItself(a);
    ContainsPrefix(a, a, 7);
    assert a[..7] == "Request";
    ContainsInLeft(a, "timed out", "Request");
    ContainsInLeft(a + "timed out", ". Try a shorter text.", "Request");
  }

  lemma GatewayTimeoutMessageMentionsTimedOut()
    ensures Contains(GatewayTimeoutMessage, "timed out")
  {
    ContainsItself("timed out");
    ContainsInRight("Request ", "timed out", "timed out");
    ContainsInLeft("Request " + "timed out", ". Try a shorter text.", "timed out");
  }

  lemma GatewayTimeoutMessageAvoidsLetters()
    ensures Avoids(GatewayTimeoutMessage, {'S', 'C'})
  {
    var cs := {'S', 'C'};
    AvoidsConcat("Request ", "timed out", cs);
    AvoidsConcat("Request " + "timed out", ". Try a shorter text.", cs);
  }

  lemma GatewayTimeoutMessageFacts()
    ensures Contains(GatewayTimeoutMessage, "Request")
    ensures !Contains(GatewayTimeoutMessage, "Server error")
    ensures !Contains(GatewayTimeoutMessage, "CORS")
    ensures IsNetworkError(GatewayTimeoutMessage)
  {
    GatewayTimeoutMessageMentionsRequest();
    GatewayTimeoutMessageMentionsTimedOut();
    GatewayTimeoutMessageAvoidsLetters();
    MissingCharNotContained(GatewayTimeoutMessage, "Server error", 'S');
    MissingCharNotContained(GatewayTimeoutMessage, "CORS", 'C');
  }

  lemma TooManyRequestsMessageLacksTranslation()
    ensures !Contains(TooManyRequestsMessage, "Translation")
  {
    MissingCharNotContained("Too many requests", "Translation", 'l');
    MissingCharNotContained(". Please wait a moment.", "Translation", 'T');
    NotContainedEitherSide("Too many requests", ". Please wait a moment.", "Translation");
  }

  lemma TooManyRequestsMessageAvoidsLetters()
    ensures Avoids(TooManyRequestsMessage, {'S', 'N', 'R', 'A', 'C'})
  {
    var cs := {'S', 'N', 'R', 'A', 'C'};
    AvoidsConcat("Too many requests", ". Please wait a moment.", cs);
  }

  lemma TooManyRequestsMessageFacts()
    ensures !PassesThrough(TooManyRequestsMessage)
    ensures !Contains(TooManyRequestsMessage, "CORS")
  {
    TooManyRequestsMessageLacksTranslation();
    TooManyRequestsMessageAvoidsLetters();
    MissingCharNotContained(TooManyRequestsMessage, "Server error", 'S');
    MissingCharNotContained(TooManyRequestsMessage, "Service", 'S');
    MissingCharNotContained(TooManyRequestsMessage, "Network", 'N');
    MissingCharNotContained(TooManyRequestsMessage, "Request", 'R');
    MissingCharNotContained(TooManyRequestsMessage, "Access", 'A');
    MissingCharNotContained(TooManyRequestsMessage, "CORS", 'C');
  }

  lemma InvalidRequestMessageAvoidsLetters()
    ensures Avoids(InvalidRequestMessage, {'S', 'N', 'R', 'A', 'T', 'C'})
  {
    var cs := {'S', 'N', 'R', 'A', 'T', 'C'};
    AvoidsConcat("Invalid request", ". Please try different text.", cs);
  }

  lemma InvalidRequestMessageFacts()
    ensures !PassesThrough(InvalidRequestMessage)
    ensures !Contains(InvalidRequestMessage, "CORS")
  {
    InvalidRequestMessageAvoidsLetters();
    DoesNotPassThrough(InvalidRequestMessage, 'T');
    MissingCharNotContained(InvalidRequestMessage, "CORS", 'C');
  }

  lemma AccessDeniedMessageMentionsAccess()
    ensures Contains(AccessDeniedMessage, "Access")
  {
    var a := "Access denied";
    ContainsItself(a);
    ContainsPrefix(a, a, 6);
    assert a[..6] == "Access";
    ContainsInLeft(a, ". Please try again.", "Access");
  }

  lemma AccessDeniedMessageAvoidsLetters()
    ensures Avoids(AccessDeniedMessage, {'C', 'o', 'N', 'F', 'm'})
  {
    var cs := {'C', 'o', 'N', 'F', 'm'};
    AvoidsConcat("Access denied", ". Please try again.", cs);
  }

  lemma AccessDeniedMessageFacts()
    ensures Contains(AccessDeniedMessage, "Access")
    ensures !Contains(AccessDeniedMessage, "CORS")
    ensures !IsNetworkError(AccessDeniedMessage)
  {
    AccessDeniedMessageMentionsAccess();
    AccessDeniedMessageAvoidsLetters();
    MissingCharNotContained(AccessDeniedMessage, "CORS", 'C');
    MissingCharNotContained(AccessDeniedMessage, "connect", 'o');
    NotNetworkError(AccessDeniedMessage, 'N', 'F', 'm');
  }

  lemma NotFoundMessageMentionsTranslation()
    ensures Contains(NotFoundMessage, "Translation")
  {
    var a := "Translation";
    ContainsItself(a);
    ContainsInLeft(a, " service", a);
    ContainsInLeft(a + " service", " not found.", a);
  }

  lemma NotFoundMessageLacksConnect()
    ensures !Contains(NotFoundMessage, "connect")
  {
    var a := "Translation";
    MissingCharNotContained(a, "connect", 'c');
    MissingCharNotContained(" service", "connect", 'o');
    MissingCharNotContained(" not found.", "connect", 'c');
    NotContainedEitherSide(a, " service", "connect");
    NotContainedEitherSide(a + " service", " not found.", "connect");
  }

  lemma NotFoundMessageAvoidsLetters()
    ensures Avoids(NotFoundMessage, {'C', 'N', 'F', 'm'})
  {
    var cs := {'C', 'N', 'F', 'm'};
    AvoidsConcat("Translation", " service", cs);
    AvoidsConcat("Translation" + " service", " not found.", cs);
  }

  lemma NotFoundMessageFacts()
    ensures Contains(NotFoundMessage, "Translation")
    ensures !Contains(NotFoundMessage, "CORS")
    ensures !IsNetworkError(NotFoundMessage)
  {
    NotFoundMessageMentionsTranslation();
    NotFoundMessageLacksConnect();
    NotFoundMessageAvoidsLetters();
    MissingCharNotContained(NotFoundMessage, "CORS", 'C');
    NotNetworkError(NotFoundMessage, 'N', 'F', 'm');
  }

  lemma OtherServerErrorMessageMentionsServerError(status: nat)
    ensures Contains(OtherServerErrorMessage(status), "Server error")
  {
    var a := "Server error (";
    ContainsItself(a);
    ContainsPrefix(a, a, 12);
    assert a[..12] == "Server error";
    ContainsInLeft(a, Decimal(status), "Server error");
    ContainsInLeft(a + Decimal(status), "). Please try again.", "Server error");
  }

  lemma OtherServerErrorMessageAvoidsLetters(status: nat)
    ensures Avoids(OtherServerErrorMessage(status), {'C', 'c', 'N', 'F', 'm'})
  {
    var cs := {'C', 'c', 'N', 'F', 'm'};
    DecimalAvoids(status, cs);
    AvoidsConcat("Server error (", Decimal(status), cs);
    AvoidsConcat("Server error (" + Decimal(status), "). Please try again.", cs);
  }

  lemma OtherServerErrorMessageFacts(status: nat)
    ensures Contains(OtherServerErrorMessage(status), "Server error")
    ensures !Contains(OtherServerErrorMessage(status), "CORS")
    ensures !IsNetworkError(OtherServerErrorMessage(status))
  {
    var m := OtherServerErrorMessage(status);
    OtherServerErrorMessageMentionsServerError(status);
    OtherServerErrorMessageAvoidsLetters(status);
    MissingCharNotContained(m, "CORS", 'C');
    MissingCharNotContained(m, "connect", 'c');
    NotNetworkError(m, 'N', 'F', 'm');
  }

  lemma ClientErrorMessageMentionsTranslation(status: nat, errorDetails: string)
    ensures Contains(ClientErrorMessage(status, errorDetails), "Translation")
  {
    var a := "Translation failed (";
    ContainsItself(a);
    ContainsPrefix(a, a, 11);
    assert a[..11] == "Translation";
    ContainsInLeft(a, Decimal(status), "Translation");
    ContainsInLeft(a + Decimal(status), "). ", "Translation");
    ContainsInLeft(a + Decimal(status) + "). ", if errorDetails == [] then "Please try again." else errorDetails, "Translation");
  }

  lemma ClientErrorMessageAvoidsLetters(status: nat)
    ensures Avoids(ClientErrorMessage(status, []), {'C', 'c', 'N', 'F', 'm'})
  {
    var cs := {'C', 'c', 'N', 'F', 'm'};
    DecimalAvoids(status, cs);
    AvoidsConcat("Translation failed (", Decimal(status), cs);
    AvoidsConcat("Translation failed (" + Decimal(status), "). ", cs);
    AvoidsConcat("Translation failed (" + Decimal(status) + "). ", "Please try again.", cs);
  }

  /** Without details, the message is quiet: no "CORS", nothing network-like. */
  lemma ClientErrorMessageQuiet(status: nat)
    ensures !Contains(ClientErrorMessage(status, []), "CORS")
    ensures !IsNetworkError(ClientErrorMessage(status, []))
  {
    var m := ClientErrorMessage(status, []);
    ClientErrorMessageAvoidsLetters(status);
    MissingCharNotContained(m, "CORS", 'C');
    MissingCharNotContained(m, "connect", 'c');
    NotNetworkError(m, 'N', 'F', 'm');
  }

  /** Details, when present, are the message's tail, so whatever they contain the message contains. */
  lemma ClientErrorMessageCarriesDetails(status: nat, errorDetails: string, sub: string)
    requires errorDetails != [] && Contains(errorDetails, sub)
    ensures Contains(ClientErrorMessage(status, errorDetails), sub)
  {
    var prefix := "Translation failed (" + Decimal(status) + "). ";
    assert ClientErrorMessage(status, errorDetails) == prefix + errorDetails;
    ContainsInRight(prefix, errorDetails, sub);
  }

  /** With details, the message mentions CORS exactly when the details do: the prefix has no 'C'. */
  lemma ClientErrorMessageCorsFromDetails(status: nat, errorDetails: string)
    requires errorDetails != []
    ensures Contains(ClientErrorMessage(status, errorDetails), "CORS") <==> Contains(errorDetails, "CORS")
  {
    var prefix := "Translation failed (" + Decimal(status) + "). ";
    assert ClientErrorMessage(status, errorDetails) == prefix + errorDetails;
    if Contains(errorDetails, "CORS") {
      ContainsInRight(prefix, errorDetails, "CORS");
    } else {
      DecimalAvoids(status, {'C'});
      AvoidsConcat("Translation failed (", Decimal(status), {'C'});
      AvoidsConcat("Translation failed (" + Decimal(status), "). ", {'C'});
      NotContainedPastPrefix(prefix, errorDetails, "CORS");
    }
  }

  /** "timed out" cannot start in "Translation failed (": its only 't' is followed by "io". */
  lemma TimedOutPastClientPrefix(rest: string)
    requires !Contains(rest, "timed out")
    ensures !Contains("Translation failed (" + rest, "timed out")
  {
    var a := "Translation failed (";
    var sub := "timed out";
    if i: nat :| i <= |a + rest| && OccursAt(a + rest, sub, i) {
      OccursAtChar(a + rest, sub, i, 0);
      OccursAtChar(a + rest, sub, i, 2);
      if i < |a| {
        assert false;
      }
      assert rest[i - |a|..i - |a| + |sub|] == (a + rest)[i..i + |sub|];
      assert OccursAt(rest, sub, i - |a|);
      assert false;
    }
  }

  /**
   * With details, the message is network-like exactly when the details are:
   * the prefix "Translation failed (N). " holds no retry keyword and cannot
   * start one.
   */
  lemma ClientErrorMessageNetworkFromDetails(status: nat, errorDetails: string)
    requires errorDetails != []
    ensures IsNetworkError(ClientErrorMessage(status, errorDetails)) <==> IsNetworkError(errorDetails)
  {
    var a := "Translation failed (";
    var b := Decimal(status) + "). ";
    var m := ClientErrorMessage(status, errorDetails);
    assert m == (a + b) + errorDetails;
    assert m == a + (b + errorDetails);
    if IsNetworkError(errorDetails) {
      forall sub | Contains(errorDetails, sub) ensures Contains(m, sub) {
        ClientErrorMessageCarriesDetails(status, errorDetails, sub);
      }
    } else {
      var cs := {'N', 'c', 'F', 't'};
      DecimalAvoids(status, cs);
      AvoidsConcat(Decimal(status), "). ", cs);
      AvoidsConcat(a, b, {'N', 'c', 'F'});
      NotContainedPastPrefix(a + b, errorDetails, "Network");
      NotContainedPastPrefix(a + b, errorDetails, "connect");
      NotContainedPastPrefix(a + b, errorDetails, "Failed to fetch");
      ConnectionContainsConnect(m);
      NotContainedPastPrefix(b, errorDetails, "timed out");
      TimedOutPastClientPrefix(b + errorDetails);
    }
  }

  lemma ClientErrorMessageFacts(status: nat, errorDetails: string)
    ensures Contains(ClientErrorMessage(status, errorDetails), "Translation")
    ensures errorDetails == [] ==> !Contains(ClientErrorMessage(status, errorDetails), "CORS")
    ensures errorDetails == [] ==> !IsNetworkError(ClientErrorMessage(status, errorDetails))
    ensures errorDetails != [] ==> (Contains(ClientErrorMessage(status, errorDetails), "CORS") <==> Contains(errorDetails, "CORS"))
    ensures errorDetails != [] ==> (IsNetworkError(ClientErrorMessage(status, errorDetails)) <==> IsNetworkError(errorDetails))
  {
    ClientErrorMessageMentionsTranslation(status, errorDetails);
    if errorDetails == [] {
      ClientErrorMessageQuiet(status);
    } else {
      ClientErrorMessageCorsFromDetails(status, errorDetails);
      ClientErrorMessageNetworkFromDetails(status, errorDetails);
    }
  }

  lemma InvalidResponseMessageAvoidsLetters()
    ensures Avoids(InvalidResponseMessage, {'S', 'N', 'R', 'A', 'T', 'C'})
  {
    var cs := {'S', 'N', 'R', 'A', 'T', 'C'};
    AvoidsConcat("Invalid response from server", ". Please try again.", cs);
  }

  lemma InvalidResponseMessageFacts()
    ensures !PassesThrough(InvalidResponseMessage) && !Contains(InvalidResponseMessage, "CORS")
  {
    InvalidResponseMessageAvoidsLetters();
    DoesNotPassThrough(InvalidResponseMessage, 'T');
    MissingCharNotContained(InvalidResponseMessage, "CORS", 'C');
  }

  lemma InvalidFormatMessageAvoidsLetters()
    ensures Avoids(InvalidFormatMessage, {'S', 'N', 'R', 'A', 'T', 'C'})
  {
  }

  lemma InvalidFormatMessageFacts()
    ensures !PassesThrough(InvalidFormatMessage) && !Contains(InvalidFormatMessage, "CORS")
  {
    InvalidFormatMessageAvoidsLetters();
    DoesNotPassThrough(InvalidFormatMessage, 'T');
    MissingCharNotContained(InvalidFormatMessage, "CORS", 'C');
  }

  lemma NoTranslationMessageAvoidsLetters()
    ensures Avoids(NoTranslationMessage, {'S', 'T', 'w', 'R', 'A', 'C'})
  {
  }

  lemma NoTranslationMessageFacts()
    ensures !PassesThrough(NoTranslationMessage) && !Contains(NoTranslationMessage, "CORS")
  {
    NoTranslationMessageAvoidsLetters();
    MissingCharNotContained(NoTranslationMessage, "Server error", 'S');
    MissingCharNotContained(NoTranslationMessage, "Service", 'S');
    MissingCharNotContained(NoTranslationMessage, "Translation", 'T');
    MissingCharNotContained(NoTranslationMessage, "Network", 'w');
    MissingCharNotContained(NoTranslationMessage, "Request", 'R');
    MissingCharNotContained(NoTranslationMessage, "Access", 'A');
    MissingCharNotContained(NoTranslationMessage, "CORS", 'C');
  }

  lemma TimeoutMessageFacts()
    ensures IsNetworkError(TimeoutMessage)
  {
    var a := "Request " + "timed out";
    ContainsItself("timed out");
    ContainsInRight("Request ", "timed out", "timed out");
    ContainsInLeft(a, ". Please check your ", "timed out");
    ContainsInLeft(a + ". Please check your ", "connection", "timed out");
    ContainsInLeft(a + ". Please check your " + "connection", " and try again.", "timed out");
  }

  lemma WebConnectionMessageLacksConnect()
    ensures !Contains(WebConnectionMessage, "connect")
  {
    var a := "Connection";
    OnlyLateStarts(a, "connect");
    MissingCharNotContained(" error. Please", "connect", 'c');
    MissingCharNotContained(" check your", "connect", 'n');
    MissingCharNotContained(" internet or try", "connect", 'c');
    MissingCharNotContained(" refreshing the page.", "connect", 'c');
    NotContainedEitherSide(a, " error. Please", "connect");
    NotContainedEitherSide(a + " error. Please", " check your", "connect");
    NotContainedEitherSide(a + " error. Please" + " check your", " internet or try", "connect");
    NotContainedEitherSide(a + " error. Please" + " check your" + " internet or try", " refreshing the page.", "connect");
  }

  lemma WebConnectionMessageAvoidsLetters()
    ensures Avoids(WebConnectionMessage, {'N', 'F', 'm'})
  {
    var cs := {'N', 'F', 'm'};
    AvoidsConcat("Connection", " error. Please", cs);
    AvoidsConcat("Connection" + " error. Please", " check your", cs);
    AvoidsConcat("Connection" + " error. Please" + " check your", " internet or try", cs);
    AvoidsConcat("Connection" + " error. Please" + " check your" + " internet or try", " refreshing the page.", cs);
  }

  lemma WebConnectionMessageFacts()
    ensures !IsNetworkError(WebConnectionMessage)
  {
    WebConnectionMessageLacksConnect();
    WebConnectionMessageAvoidsLetters();
    NotNetworkError(WebConnectionMessage, 'N', 'F', 'm');
  }

  lemma NativeConnectionMessageFacts()
    ensures IsNetworkError(NativeConnectionMessage)
  {
    ContainsItself("connect");
    ContainsInRight("Cannot ", "connect", "connect");
    ContainsInLeft("Cannot " + "connect", " to translation service. Please check your internet connection.", "connect");
  }

  lemma BlockedMessageLacksConnect()
    ensures !Contains(BlockedMessage, "connect")
  {
    var a := "Connection";
    OnlyLateStarts(a, "connect");
    MissingCharNotContained(" blocked. Please", "connect", 'n');
    MissingCharNotContained(" try again.", "connect", 'c');
    NotContainedEitherSide(a, " blocked. Please", "connect");
    NotContainedEitherSide(a + " blocked. Please", " try again.", "connect");
  }

  lemma BlockedMessageAvoidsLetters()
    ensures Avoids(BlockedMessage, {'N', 'F', 'm'})
  {
    var cs := {'N', 'F', 'm'};
    AvoidsConcat("Connection", " blocked. Please", cs);
    AvoidsConcat("Connection" + " blocked. Please", " try again.", cs);
  }

  lemma BlockedMessageFacts()
    ensures !IsNetworkError(BlockedMessage)
  {
    BlockedMessageLacksConnect();
    BlockedMessageAvoidsLetters();
    NotNetworkError(BlockedMessage, 'N', 'F', 'm');
  }

  lemma GenericMessageFacts()
    ensures IsNetworkError(GenericMessage)
  {
    ContainsItself("connection");
    ContainsInRight("Translation failed. Please check your ", "connection", "connection");
    ContainsInLeft("Translation failed. Please check your " + "connection", " and try again.", "connection");
  }

  // ---------------------------------------------------------------------------
  // One attempt
  // ---------------------------------------------------------------------------

  /**
   * The message thrown for a non-ok status (lines 241-259): the first branch
   * whose status test holds. It is never empty, and among the 5xx statuses
   * exactly those other than 502, 503 and 504 give a message with
   * "Server error" in it.
   */
  function StatusMessage(status: nat, errorDetails: string): (message: string)
    ensures message != []
    ensures 500 <= status ==> (Contains(message, "Server error") <==> status != 502 && status != 503 && status != 504)
  {
    if status == 500 then
      ServerErrorMessageFacts();
      ServerErrorMessage
    else if status == 502 || status == 503 then
      UnavailableMessageFacts();
      UnavailableMessage
    else if status == 504 then
      GatewayTimeoutMessageFacts();
      GatewayTimeoutMessage
    else if status == 429 then
      TooManyRequestsMessage
    else if status == 400 then
      InvalidRequestMessage
    else if status == 401 || status == 403 then
      AccessDeniedMessage
    else if status == 404 then
      NotFoundMessage
    else if status >= 500 then
      OtherServerErrorMessageFacts(status);
      OtherServerErrorMessage(status)
    else
      ClientErrorMessage(status, errorDetails)
  }

  /**
   * The catch block of `makeRequest` (lines 298-327): the message the attempt
   * finally rejects with. It is never empty, and it is either the thrown
   * message itself, passed through because it carries one of the keywords of
   * lines 316-321, or one of five fixed messages.
   */
  function Rewrite(thrown: Thrown, platform: Platform): (message: string)
    ensures message != []
    ensures || (thrown.Raised? && message == thrown.message && PassesThrough(message))
            || message in {TimeoutMessage, WebConnectionMessage, NativeConnectionMessage, BlockedMessage, GenericMessage}
  {
    match thrown
    case NotAnError => GenericMessage
    case Raised(name, message) =>
      if name == "AbortError" then TimeoutMessage
      else if name == "TypeError" && IsFetchFailure(message) then
        if platform == Web then WebConnectionMessage else NativeConnectionMessage
      else if platform == Web && Contains(message, "CORS") then BlockedMessage
      else if PassesThrough(message) then
        assert message != [] by {
          if message == [] {
            ShorterNotContained(message, "Access");
            ShorterNotContained(message, "Server error");
            ShorterNotContained(message, "Service");
            ShorterNotContained(message, "Translation");
            ShorterNotContained(message, "Network");
            ShorterNotContained(message, "Request");
          }
        }
        message
      else GenericMessage
  }

  /** `throw new Error(message)` inside the try block, caught by the catch block. */
  function Throw(message: string, platform: Platform): string
  {
    Rewrite(Raised("Error", message), platform)
  }

  /**
   * One call of `makeRequest` (lines 188-328) on the outcome of its `fetch`.
   * It succeeds only on a 2xx response whose `completion` is a non-empty
   * string, with that completion normalised and, when translating into
   * Russian, corrected; every failure carries a non-empty message.
   */
  function MakeRequest(exchange: Exchange, platform: Platform, isToRussian: bool): (r: Attempt)
    ensures r.Failed? ==> r.message != []
    ensures r.Translated? <==>
      exchange.Responded? && 200 <= exchange.status < 300 && exchange.body.CompletionText? && exchange.body.text != []
    ensures r.Translated? ==> r.translation == Corrected(Normalize(exchange.body.text), isToRussian)
    ensures r.Translated? && !isToRussian ==> IsNormal(r.translation)
  {
    match exchange
    case Rejected(thrown) => Failed(Rewrite(thrown, platform))
    case Responded(status, errorDetails, body) =>
      if !(200 <= status < 300) then Failed(Throw(StatusMessage(status, errorDetails), platform))
      else
        match body
        case Unparsable => Failed(Throw(InvalidResponseMessage, platform))
        case NotAnObject => Failed(Throw(InvalidFormatMessage, platform))
        case NoCompletion => Failed(Throw(NoTranslationMessage, platform))
        case CompletionNotText(typeErrorMessage) => Failed(Rewrite(Raised("TypeError", typeErrorMessage), platform))
        case CompletionText(text) =>
          if text == [] then Failed(Throw(NoTranslationMessage, platform))
          else Translated(Corrected(Normalize(text), isToRussian))
  }

  // ---------------------------------------------------------------------------
  // Which failures are retried
  // ---------------------------------------------------------------------------

  /** The attempt failed with a network-like message, so the retry block tries again. */
  predicate Retries(a: Attempt)
  {
    a.Failed? && IsNetworkError(a.message)
  }

  /**
   * For every status the ladder names, and every other 5xx status, the
   * attempt fails and is retried exactly for 400, 429 and 504: the 400 and 429
   * messages carry no keyword and are rewritten to the generic message, which
   * mentions the connection, and the 504 message says "timed out"; the
   * others pass through unchanged and mention no network problem.
   */
  lemma StatusRetried(status: nat, errorDetails: string, body: Body, platform: Platform, isToRussian: bool)
    requires status in {400, 401, 403, 404, 429, 500, 502, 503, 504} || 500 < status
    ensures var r := MakeRequest(Responded(status, errorDetails, body), platform, isToRussian);
      && r.Failed?
      && r.message == (if status in {400, 429} then GenericMessage else StatusMessage(status, errorDetails))
      && (Retries(r) <==> status in {400, 429, 504})
  {
    GenericMessageFacts();
    if status == 500 {
      ServerErrorMessageFacts();
    } else if status == 502 || status == 503 {
      UnavailableMessageFacts();
    } else if status == 504 {
      GatewayTimeoutMessageFacts();
    } else if status == 429 {
      TooManyRequestsMessageFacts();
    } else if status == 400 {
      InvalidRequestMessageFacts();
    } else if status == 401 || status == 403 {
      AccessDeniedMessageFacts();
    } else if status == 404 {
      NotFoundMessageFacts();
    } else {
      OtherServerErrorMessageFacts(status);
    }
  }

  /**
   * Any other non-ok status below 500 fails with "Translation failed (N)."
   * and the error details. Without details it is not retried. With details
   * it is retried exactly when they look like a network problem, unless on
   * the web they also mention CORS, which turns the message into the
   * non-retried "Connection blocked.".
   */
  lemma ClientErrorRetried(status: nat, errorDetails: string, body: Body, platform: Platform, isToRussian: bool)
    requires status < 200 || (300 <= status < 500 && status !in {400, 401, 403, 404, 429})
    ensures var r := MakeRequest(Responded(status, errorDetails, body), platform, isToRussian);
      && r.Failed?
      && (errorDetails == [] ==> r.message == ClientErrorMessage(status, errorDetails) && !Retries(r))
      && (platform == Native || !Contains(errorDetails, "CORS") ==>
            r.message == ClientErrorMessage(status, errorDetails) && (Retries(r) <==> IsNetworkError(errorDetails)))
      && (platform == Web && Contains(errorDetails, "CORS") ==> r.message == BlockedMessage && !Retries(r))
  {
    ClientErrorMessageFacts(status, errorDetails);
    BlockedMessageFacts();
  }

  /**
   * A 2xx response whose body does not parse, is not an object, or has no
   * (or an empty) completion fails with the generic message, which is retried.
   */
  lemma BadBodyRetried(status: nat, errorDetails: string, body: Body, platform: Platform, isToRussian: bool)
    requires 200 <= status < 300
    requires body.Unparsable? || body.NotAnObject? || body.NoCompletion? || body == CompletionText([])
    ensures var r := MakeRequest(Responded(status, errorDetails, body), platform, isToRussian);
      r == Failed(GenericMessage) && Retries(r)
  {
    InvalidResponseMessageFacts();
    InvalidFormatMessageFacts();
    NoTranslationMessageFacts();
    GenericMessageFacts();
  }

  /** A request aborted by the 30-second timer fails with a "timed out" message and is retried. */
  lemma AbortRetried(message: string, platform: Platform, isToRussian: bool)
    ensures var r := MakeRequest(Rejected(Raised("AbortError", message)), platform, isToRussian);
      r == Failed(TimeoutMessage) && Retries(r)
  {
    TimeoutMessageFacts();
  }

  /**
   * A fetch that fails with a `TypeError` ("Failed to fetch", "Network request
   * failed") is retried on native platforms only: the web message
   * "Connection error." has a capital C, so neither "connection" nor
   * "connect" occurs in it.
   */
  lemma FetchFailureRetried(message: string, platform: Platform, isToRussian: bool)
    requires IsFetchFailure(message)
    ensures var r := MakeRequest(Rejected(Raised("TypeError", message)), platform, isToRussian);
      && r == Failed(if platform == Web then WebConnectionMessage else NativeConnectionMessage)
      && (Retries(r) <==> platform == Native)
  {
    WebConnectionMessageFacts();
    NativeConnectionMessageFacts();
  }

  /** A thrown value that is not an `Error` becomes the generic message and is retried. */
  lemma NonErrorRetried(platform: Platform, isToRussian: bool)
    ensures var r := MakeRequest(Rejected(NotAnError), platform, isToRussian);
      r == Failed(GenericMessage) && Retries(r)
  {
    GenericMessageFacts();
  }

  /**
   * Any other thrown `Error`: not an abort, and not a `TypeError` the catch
   * block recognises as a fetch failure. On the web a message mentioning
   * CORS becomes the non-retried "Connection blocked."; otherwise a message
   * with a pass-through keyword is kept and retried exactly when it is
   * network-like, and any other message becomes the generic one, which is
   * retried.
   */
  lemma OtherRejectionRetried(name: string, message: string, platform: Platform, isToRussian: bool)
    requires name != "AbortError" && !(name == "TypeError" && IsFetchFailure(message))
    ensures var r := MakeRequest(Rejected(Raised(name, message)), platform, isToRussian);
      && r.Failed?
      && (platform == Web && Contains(message, "CORS") ==> r.message == BlockedMessage && !Retries(r))
      && (!(platform == Web && Contains(message, "CORS")) && PassesThrough(message) ==>
            r.message == message && (Retries(r) <==> IsNetworkError(message)))
      && (!(platform == Web && Contains(message, "CORS")) && !PassesThrough(message) ==>
            r.message == GenericMessage && Retries(r))
  {
    BlockedMessageFacts();
    GenericMessageFacts();
  }

  /**
   * A 2xx completion that is not a string makes `trim` throw a `TypeError`
   * (line 284), which the catch block treats like any other rejection with
   * that `TypeError`.
   */
  lemma CompletionNotTextIsTypeError(status: nat, errorDetails: string, m: string, platform: Platform, isToRussian: bool)
    requires 200 <= status < 300
    ensures MakeRequest(Responded(status, errorDetails, CompletionNotText(m)), platform, isToRussian)
         == MakeRequest(Rejected(Raised("TypeError", m)), platform, isToRussian)
  {
  }

  /**
   * A non-string completion follows the rules for any other rejection; its
   * `TypeError` message counts as a fetch failure only when it says so.
   */
  lemma CompletionNotTextRetried(status: nat, errorDetails: string, m: string, platform: Platform, isToRussian: bool)
    requires 200 <= status < 300 && !IsFetchFailure(m)
    ensures var r := MakeRequest(Responded(status, errorDetails, CompletionNotText(m)), platform, isToRussian);
      && r.Failed?
      && (platform == Web && Contains(m, "CORS") ==> r.message == BlockedMessage && !Retries(r))
      && (!(platform == Web && Contains(m, "CORS")) && PassesThrough(m) ==>
            r.message == m && (Retries(r) <==> IsNetworkError(m)))
      && (!(platform == Web && Contains(m, "CORS")) && !PassesThrough(m) ==>
            r.message == GenericMessage && Retries(r))
  {
    CompletionNotTextIsTypeError(status, errorDetails, m, platform, isToRussian);
    OtherRejectionRetried("TypeError", m, platform, isToRussian);
  }

  // ---------------------------------------------------------------------------
  // The retry driver
  // ---------------------------------------------------------------------------

  /** What the retry block does, in order: a POST for attempt n, or a wait. */
  datatype Event = Post(attempt: nat, messages: seq<ChatMessage>) | Wait(milliseconds: nat)

  /**
   * The retry block of `mutationFn` (lines 330-359) on the outcomes of the
   * first and, if it happens, the second `fetch`. It posts once, and posts a
   * second time after waiting 3000 ms exactly when the first attempt failed
   * with a network-like message. The result is the first attempt's, or the
   * second's success, or the second's error when it mentions "Server error",
   * or else the fixed "Connection failed." message.
   */
  method RunTranslation(request: TranslationRequest, first: Exchange, second: Exchange, platform: Platform)
    returns (result: Attempt, events: seq<Event>)
    ensures var messages := RequestMessages(request);
      var a := MakeRequest(first, platform, IsToRussian(request));
      if !Retries(a) then
        events == [Post(1, messages)] && result == a
      else
        var b := MakeRequest(second, platform, IsToRussian(request));
        && events == [Post(1, messages), Wait(3000), Post(2, messages)]
        && (b.Translated? ==> result == b)
        && (b.Failed? && Contains(b.message, "Server error") ==> result == b)
        && (b.Failed? && !Contains(b.message, "Server error") ==> result == Failed(ConnectionFailedMessage))
  {
    var isToRussian := IsToRussian(request);
    var messages := RequestMessages(request);
    events := [Post(1, messages)];
    var firstAttempt := MakeRequest(first, platform, isToRussian);
    if !firstAttempt.Failed? {
      return firstAttempt, events;
    }
    var isNetworkError := IsNetworkError(firstAttempt.message);
    if !isNetworkError {
      return firstAttempt, events;
    }
    // The block waits 3000 ms and posts the second attempt.
    events := [Post(1, messages), Wait(3000), Post(2, messages)];
    var secondAttempt := MakeRequest(second, platform, isToRussian);
    if secondAttempt.Translated? {
      result := secondAttempt;
    } else if Contains(secondAttempt.message, "Server error") {
      result := secondAttempt;
    } else {
      result := Failed(ConnectionFailedMessage);
    }
  }

  /**
   * On a retry, a second 5xx failure keeps its own message exactly when the
   * status is not 502, 503 or 504; those three end in "Connection failed.".
   */
  lemma SecondServerErrorKept(status: nat, errorDetails: string, body: Body, platform: Platform, isToRussian: bool)
    requires 500 <= status
    ensures var b := MakeRequest(Responded(status, errorDetails, body), platform, isToRussian);
      b.Failed? && (Contains(b.message, "Server error") <==> status != 502 && status != 503 && status != 504)
  {
    var m := StatusMessage(status, errorDetails);
    if status == 500 {
      ServerErrorMessageFacts();
    } else if status == 502 || status == 503 {
      UnavailableMessageFacts();
    } else if status == 504 {
      GatewayTimeoutMessageFacts();
    } else {
      OtherServerErrorMessageFacts(status);
    }
  }
}
