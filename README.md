# Translator screen: a verified model of its logic

The app is a single React Native screen, `app/index.tsx`. The user types
English or Russian text. The screen sends it to a language-model completion
endpoint with a direction-specific system prompt. It cleans up the completion,
applies a table of Russian terminology corrections, and shows the result.
This project models the deterministic logic inside that screen, in five
Dafny modules:

- `Text`: the JavaScript string primitives the screen relies on.
  - the whitespace class `\s` and `trim`;
  - the ASCII word characters behind `\b`;
  - `includes`;
  - the decimal rendering of a number in a template literal.
- `Normalizer`: the clean-up chain of lines 284-292. Each global regex
  replacement is written as the left-to-right scan JavaScript performs.
  - Its output has no dash of any of the three kinds.
  - Its only whitespace is single U+0020 spaces, never two in a row and
    never at either end.
  - It adds no character other than the space, and keeps every character of
    the completion other than whitespace and dashes, in order.
  - Where the spaces go is fixed too. The result is the completion with
    every maximal run of whitespace and dashes replaced by one space, and
    the spaces at either end removed.
  - It is idempotent.
- `Corrections`: `applyCustomCorrections` (lines 88-139).
  - It is an imperative method whose loop reassigns the text once per table
    entry, proved against a recursive fold over the table.
  - A term standing alone, between text without ASCII word characters, is
    replaced by its Russian counterpart, and the text around it is kept.
  - A single whole-word replacement never creates a new whole-word
    occurrence of any word. The replacement of a single-word term removes
    every whole-word occurrence of that term.
  - Hence the two "midnight snack" entries can never match. By the time
    they run, the earlier "snack" entry has rewritten every whole-word
    "snack".
- `Requests`: one call of `makeRequest` and the retry block of `mutationFn`.
  - `makeRequest` covers the status ladder, the checks on an ok body and the
    rewrite in the catch block. It is a function from the outcome of the
    `fetch` to a translation or an error message.
  - The retry block is a method that records the posts and the wait it
    performs.
  - Lemmas state, for every kind of failure, whether it is retried.
- `Screen`: the screen's state and its handlers.
  - The state is a class with the four fields the handlers set: input text,
    translated text, source and target language.
  - The invariant is that the two languages differ. It holds initially and
    every handler keeps it.
  - The prompt is chosen on `sourceLang` (line 145) and the corrections are
    switched on by `targetLang` (line 294). Because the invariant holds,
    those two independent tests always agree.

### Which failures are retried

The retry gate of lines 335-340 looks for keywords in the final message, so
what is retried follows from the wording of the messages:

- The 400 and 429 messages ("Invalid request…", "Too many requests…") carry
  none of the keywords the catch block lets through. They are rewritten to
  the generic "Translation failed. Please check your connection and try
  again.", which contains "connection", so they are retried.
- A malformed ok body (unparsable, not an object, no completion) goes the
  same way and is retried.
- On the web a fetch failure whose message contains "Failed to fetch" or
  "Network request failed" becomes "Connection error. …". It has a capital
  C, so neither "connection" nor "connect" occurs in it, and it is not
  retried, although it reports a connectivity failure. A fetch `TypeError`
  worded otherwise is treated like any other thrown error.
- Any other thrown error: on the web a message mentioning "CORS" becomes
  "Connection blocked." and is not retried. A message with a pass-through
  keyword is kept and retried exactly when it is network-like. Anything else
  gets the generic message and is retried. A non-string completion throws a
  `TypeError` from `trim` and follows the same rules.

See `Requests.StatusRetried`, `Requests.BadBodyRetried`,
`Requests.FetchFailureRetried`, `Requests.OtherRejectionRetried` and
`Requests.CompletionNotTextRetried`.

## Model

| member | source | states |
|---|---|---|
| Text.Trim | app/index.tsx:385 | `trim` cuts off only a leading and a trailing run of whitespace, leaving no whitespace at either end; the result is empty exactly when the input is all whitespace, and every non-whitespace character survives in order |
| Text.TrimIdempotent | app/index.tsx:198 | trimming an already trimmed text changes nothing |
| Text.Strip | app/index.tsx:291 | removing the leading and trailing runs of a character class cuts off only class characters, at the ends; what is left neither starts nor ends in the class, is non-empty whenever the input has a character outside the class, and keeps every such character in order |
| Text.StripUnique | app/index.tsx:291 | removing the runs of a character class at both ends (line 291) has one possible result: any cut that removes only class characters, at the ends, and leaves none there is that result |
| Text.TrimSquashStrip | app/index.tsx:284-292 | trimming the completion first (line 284) changes nothing once every whitespace-and-dash run is replaced by one space and the end spaces are removed |
| Text.Decimal | app/index.tsx:256 | the rendering of a status code is a non-empty string of decimal digits, without a leading zero, whose value is the status code |
| Normalizer.ReplaceDashFrom | app/index.tsx:287-289 | the scan from a position removes every occurrence of the dash and adds no character beyond the space and those of the scanned text |
| Normalizer.ReplaceDashFromSquash | app/index.tsx:287-289 | replacing a dash with its surrounding whitespace by a space keeps the text's runs of whitespace and dashes in place: squashing each such run to one space gives the same text before and after |
| Normalizer.ReplaceDashFromKeeps | app/index.tsx:287-289 | the scan for a dash with its surrounding whitespace removes only whitespace and that dash: every other character survives, in order |
| Normalizer.ReplaceDash | app/index.tsx:287-289 | replacing a dash with its surrounding whitespace by a space leaves no such dash, adds no character other than the space, and keeps every character other than whitespace and the dash, in order; each maximal run of whitespace and that dash stays a run in the same place |
| Normalizer.ReplaceDashFromUnchanged | app/index.tsx:287-289 | a text without the dash goes through its replacement unchanged |
| Normalizer.CollapseFrom | app/index.tsx:290 | the scan from a position leaves only single U+0020 spaces as whitespace, is empty exactly when nothing is left to scan, and starts with a space exactly when the scanned text starts with whitespace |
| Normalizer.CollapseFromSquash | app/index.tsx:290 | the scan replaces each maximal whitespace run by one space, also when runs are counted over any larger class of characters |
| Normalizer.CollapseFromKeeps | app/index.tsx:290 | the scan for whitespace runs removes only whitespace: every other character survives, in order |
| Normalizer.Collapse | app/index.tsx:290 | collapsing whitespace runs leaves only single U+0020 spaces as whitespace, adds no other character, and keeps every non-whitespace character in order; the result is exactly the text with each maximal whitespace run replaced by one space |
| Normalizer.CollapseFromUnchanged | app/index.tsx:290 | a single-spaced text goes through the collapse unchanged |
| Normalizer.RemoveDashes | app/index.tsx:287-289 | after the em-dash, en-dash and hyphen replacements no dash of any kind is left, only spaces were added, and every character other than whitespace and dashes survives in order; the runs of whitespace and dashes are those of the input, in the same places |
| Normalizer.Normalize | app/index.tsx:284-292 | the normalised completion has no dash, only single spaces as whitespace, no space at either end, and no character except the space that the completion lacks; its characters other than whitespace and dashes are exactly the completion's, in order |
| Normalizer.CollapsedIsSquashed | app/index.tsx:287-290 | after the dash replacements and the collapse, the text is the input with each maximal run of whitespace and dashes replaced by one space |
| Normalizer.StripCollapsed | app/index.tsx:291-292 | on a collapsed, dashless text, removing the end runs of whitespace and dashes and then trimming is the same as removing the end spaces |
| Normalizer.NormalizeSquashStrip | app/index.tsx:284-292 | the normalised completion is the completion with each maximal run of whitespace and dashes replaced by one space and the spaces at either end removed |
| Normalizer.NormalizeFixesNormal | app/index.tsx:284-292 | a text already in that normal form is returned as it is |
| Normalizer.NormalizeIdempotent | app/index.tsx:284-292 | normalising twice gives the same as normalising once |
| Corrections.ReplaceFrom | app/index.tsx:134-135 | the global replacement of `\bterm\b`, scanned from a position, resuming after each replaced match |
| Corrections.ReplaceWholeWord | app/index.tsx:134-135 | one table entry's global whole-word replacement over the whole text |
| Corrections.CopiesWordless | app/index.tsx:134-135 | a stretch of the text without word characters is copied by the replacement as it is |
| Corrections.ReplaceLoneTerm | app/index.tsx:134-135 | a term standing alone between text without word characters is replaced by its Russian counterpart, and the text around it is kept |
| Corrections.ReplaceFromUnchanged | app/index.tsx:134-135 | a text in which the term has no whole-word occurrence is left unchanged by its global replacement |
| Corrections.InsideLongerWordNoMatch | app/index.tsx:134 | an occurrence of a term preceded or followed by a word character is not matched by `\bterm\b` |
| Corrections.NoNewWholeWordFrom | app/index.tsx:134-135 | every whole word in the output of a replacement was already a whole word of the input, at a place the term did not match |
| Corrections.ReplaceLeavesNoMatch | app/index.tsx:134-135 | after replacing a single-word term no whole-word occurrence of it remains |
| Corrections.ReplaceKeepsWordAbsent | app/index.tsx:134-135 | a replacement never creates a whole word that the input lacked |
| Corrections.ApplyAll | app/index.tsx:132-136 | the entries' replacements applied one after another, in table order, each on the previous one's result |
| Corrections.Corrected | app/index.tsx:88-139 | the table applied in order when translating into Russian, the text itself otherwise |
| Corrections.ApplyAllConcat | app/index.tsx:133-136 | running the table in two consecutive parts is running it in one go |
| Corrections.ApplyAllKeepsWordAbsent | app/index.tsx:133-136 | no sequence of replacements creates a whole word that the input lacked |
| Corrections.ApplyAllWordless | app/index.tsx:133-136 | a text without ASCII letters, digits or underscores passes every replacement unchanged |
| Corrections.ApplyCustomCorrections | app/index.tsx:88-139 | the loop's result is the table's replacements applied in table order when translating into Russian, and the input itself otherwise |
| Corrections.WordlessTextUnchanged | app/index.tsx:88-139 | a text without ASCII letters is never corrected, because every table term starts with a letter |
| Corrections.TableTermsStartWithLetter | app/index.tsx:90-130 | every term of the table starts with an ASCII letter |
| Corrections.SingleWordMatchesOnlyItself | app/index.tsx:134 | inside a run of word characters a term can match only the whole run |
| Corrections.SingleWordUncorrected | app/index.tsx:91-136 | a single word that is not itself a table term comes back uncorrected, so the matching is case-sensitive and whole-word |
| Corrections.NotTermShapedDiffers | app/index.tsx:90-130 | a word whose second character is an upper-case ASCII letter and whose length is not 3, or that starts with "W" and whose length is not 8, is none of the table's terms |
| Corrections.ShapedWordUncorrected | app/index.tsx:91-136 | a single word of such a shape comes back uncorrected |
| Corrections.UpperCaseWhatsAppUncorrected | app/index.tsx:92-94 | "WHATSAPP" is not corrected: the three spellings of WhatsApp in the table are matched case-sensitively |
| Corrections.LongerWordUncorrected | app/index.tsx:91-136 | "Whatsapping" is not corrected: "Whatsapp" occurs in it only inside a longer word |
| Corrections.LoneWhatsAppCorrected | app/index.tsx:88-139 | "WhatsApp" standing alone is corrected to "Ватсап", and no later entry changes the result |
| Corrections.LastWordMatches | app/index.tsx:134 | wherever a multi-word term matches, its last word matches as a whole word too |
| Corrections.ApplyAllClearsWord | app/index.tsx:133-136 | once the single-word entry for a term has run (as "snack" at line 114 does), no later entry brings that whole word back |
| Corrections.ApplyAllNoMatch | app/index.tsx:133-136 | entries none of whose terms occur as whole words leave the text unchanged |
| Corrections.MidnightSnackEntriesIdle | app/index.tsx:120-121 | on a text without a whole-word "snack", the two "midnight snack" entries change nothing |
| Corrections.MidnightSnackEntriesUnreachable | app/index.tsx:91-136 | the table gives the same result on every text as the table without the two "midnight snack" entries |
| Requests.SystemPrompt | app/index.tsx:145 | the prompt is chosen on the source language alone: English to Russian for English, Russian to English otherwise |
| Requests.RequestMessages | app/index.tsx:195-200 | the request body's messages: the system prompt, then the trimmed text as the user message |
| Requests.IsToRussian | app/index.tsx:294 | the corrections flag is set on the target language alone |
| Requests.PromptMatchesCorrections | app/index.tsx:294 | for distinct languages, the English-to-Russian prompt of line 145 is sent exactly when the Russian corrections are applied |
| Requests.RequestSendsTrimmedText | app/index.tsx:195-200 | the user message is the trimmed request text, and an already trimmed text is sent as it is |
| Requests.IsNetworkError | app/index.tsx:335-340 | a first failure is network-like when its message contains "Network", "connection", "connect", "Failed to fetch" or "timed out" |
| Requests.PassesThrough | app/index.tsx:316-321 | the catch block lets a message through when it contains "Server error", "Service", "Translation", "Network", "Request" or "Access" |
| Requests.IsFetchFailure | app/index.tsx:305 | a `TypeError` is a fetch failure when its message contains "Failed to fetch" or "Network request failed" |
| Requests.NotNetworkError | app/index.tsx:335-340 | a message lacking "connect" and one letter of each other retry keyword is not network-like |
| Requests.DoesNotPassThrough | app/index.tsx:316-321 | a message lacking a letter of each keyword is not let through by the catch block |
| Requests.ServerErrorMessageFacts | app/index.tsx:242 | the 500 message mentions "Server error", not "CORS", and is not network-like |
| Requests.UnavailableMessageFacts | app/index.tsx:244 | the 502/503 message mentions "Service" but not "Server error" or "CORS", and is not network-like |
| Requests.GatewayTimeoutMessageFacts | app/index.tsx:246 | the 504 message mentions "Request" and is network-like ("timed out"), without "Server error" or "CORS" |
| Requests.TooManyRequestsMessageFacts | app/index.tsx:248 | the 429 message is not let through by the catch block and has no "CORS" |
| Requests.InvalidRequestMessageFacts | app/index.tsx:250 | the 400 message is not let through by the catch block and has no "CORS" |
| Requests.AccessDeniedMessageFacts | app/index.tsx:252 | the 401/403 message mentions "Access", has no "CORS", and is not network-like |
| Requests.NotFoundMessageFacts | app/index.tsx:254 | the 404 message mentions "Translation", has no "CORS", and is not network-like |
| Requests.OtherServerErrorMessageFacts | app/index.tsx:256 | the message for any other 5xx status mentions "Server error", has no "CORS", and is not network-like |
| Requests.ClientErrorMessageFacts | app/index.tsx:258 | the message for any other status mentions "Translation". Without details it is neither CORS nor network-like. With details it mentions CORS exactly when they do, and it is network-like exactly when they are |
| Requests.ClientErrorMessageNetworkFromDetails | app/index.tsx:258 | with details, the message is network-like (lines 335-340) exactly when the details are: the prefix "Translation failed (N). " neither holds nor starts a retry keyword |
| Requests.ClientErrorMessageCorsFromDetails | app/index.tsx:258 | with details, the message contains "CORS" exactly when the details do |
| Requests.InvalidResponseMessageFacts | app/index.tsx:270 | the unparsable-body message is not let through and has no "CORS" |
| Requests.InvalidFormatMessageFacts | app/index.tsx:276 | the not-an-object message is not let through and has no "CORS" |
| Requests.NoTranslationMessageFacts | app/index.tsx:281 | the missing-completion message is not let through and has no "CORS" |
| Requests.TimeoutMessageFacts | app/index.tsx:303 | the abort message is network-like |
| Requests.WebConnectionMessageFacts | app/index.tsx:307 | the web fetch-failure message is not network-like |
| Requests.NativeConnectionMessageFacts | app/index.tsx:309 | the native fetch-failure message is network-like |
| Requests.BlockedMessageFacts | app/index.tsx:313 | the CORS message is not network-like |
| Requests.GenericMessageFacts | app/index.tsx:326 | the generic message is network-like |
| Requests.StatusMessage | app/index.tsx:241-259 | the ladder's message is never empty, and a 5xx status gets a message with "Server error" exactly when it is not 502, 503 or 504 |
| Requests.Rewrite | app/index.tsx:298-327 | the catch block's message is never empty. It is either the thrown message itself, carrying a pass-through keyword, or one of the five fixed messages; which rule applies to which rejection is stated by the retry lemmas below |
| Requests.MakeRequest | app/index.tsx:188-328 | an attempt succeeds exactly on a 2xx response whose completion is a non-empty string, and its translation is that completion normalised and then corrected when bound for Russian. A failure always has a message. A success not bound for Russian is in normal form |
| Requests.StatusRetried | app/index.tsx:298-340 | every status the ladder of lines 241-259 names, and every other 5xx, fails. The 400 and 429 messages are replaced by the generic message; every other status keeps its ladder message. It is retried exactly for 400, 429 and 504 |
| Requests.ClientErrorRetried | app/index.tsx:298-340 | any other non-ok status fails. Without details it is not retried. Otherwise, unless on the web the details mention CORS, the message is "Translation failed (N). " with the details and it is retried exactly when they are network-like; CORS on the web gives the non-retried "Connection blocked." |
| Requests.BadBodyRetried | app/index.tsx:298-340 | an unparsable, non-object or completion-less ok body fails with the generic message and is retried |
| Requests.AbortRetried | app/index.tsx:298-340 | an aborted request fails with the timeout message and is retried |
| Requests.FetchFailureRetried | app/index.tsx:298-340 | a fetch `TypeError` gets the platform's connection message and is retried on native platforms only |
| Requests.NonErrorRetried | app/index.tsx:298-340 | a thrown non-`Error` value becomes the generic message and is retried |
| Requests.OtherRejectionRetried | app/index.tsx:298-327 | a thrown error other than an abort or a recognised fetch `TypeError` fails: with "CORS" on the web as "Connection blocked.", not retried; else, with a pass-through keyword, with its own message, retried exactly when network-like; else with the generic message, retried |
| Requests.CompletionNotTextIsTypeError | app/index.tsx:284 | a non-string completion of an ok response fails exactly as a thrown `TypeError` with the same message |
| Requests.CompletionNotTextRetried | app/index.tsx:284-327 | a non-string completion whose message names no fetch failure follows the CORS, pass-through and generic rules of the catch block |
| Requests.RunTranslation | app/index.tsx:330-359 | there is one post, and a second after a 3000 ms wait exactly when the first attempt fails network-like. The result is the first attempt's, or the second's success, or the second's error when it mentions "Server error", or else the fixed "Connection failed." message |
| Requests.SecondServerErrorKept | app/index.tsx:349-355 | on a retry, a second 5xx failure keeps its message exactly when the status is not 502, 503 or 504 |
| Screen.ValidateInput | app/index.tsx:384-394 | input is accepted exactly when its trimmed form is non-empty and at most 5000 characters. The accepted text is that trimmed form: non-empty, within the limit, part of the input and without whitespace at its ends. The toast names the reason for refusal |
| Screen.ValidateInputStable | app/index.tsx:385-394 | an accepted text passes the checks again, unchanged |
| Screen.TranslateEnabled | app/index.tsx:592 | the translate button is enabled when no translation is pending and the trimmed input is non-empty |
| Screen.EnabledButtonNeverEmpty | app/index.tsx:590-592 | with the translate button enabled, the empty-input toast never shows, and the input is refused only when it is over the limit |
| Screen.AcceptedTextSentAsIs | app/index.tsx:404-408 | the accepted text reaches the model unchanged: trimming it again in `makeRequest` is a no-op |
| Screen.TranslatorScreen.constructor | app/index.tsx:34-37 | the screen starts with empty texts and English to Russian, so the two languages differ |
| Screen.TranslatorScreen.SetInputText | app/index.tsx:569 | typing replaces the input text and changes nothing else |
| Screen.TranslatorScreen.HandleTranslate | app/index.tsx:384-409 | a refused input shows its toast and changes nothing. An accepted one clears the translation and starts a request for the trimmed text in the current, distinct, language pair |
| Screen.TranslatorScreen.HandleSwapLanguages | app/index.tsx:411-423 | the languages change places and both texts are cleared. The languages still differ |
| Screen.TranslatorScreen.HandleClear | app/index.tsx:440-446 | both texts are cleared and the languages are kept |
| Screen.TranslatorScreen.OnSettled | app/index.tsx:361-381 | a success shows the translation. A failure shows its message as a toast and empties the translation |
| Screen.SwapTwiceThenTranslate | app/index.tsx:411-423 | after two swaps, a request is English to Russian again, and its prompt agrees with its corrections flag |

## Left out

- The network and time are not modelled.
  - `fetch`, `AbortController` and the two timers become inputs and events.
  - The outcome of each `fetch` is an `Exchange` value.
  - An abort by the 30-second timer is a rejection with an `AbortError`.
  - The 3000 ms pause is a `Wait(3000)` event.
- Reading the error body by content type (lines 227-239) and `JSON.parse`
  (lines 262-271) are foreign calls. They become an opaque `errorDetails`
  string and the `Body` datatype:
  - unparsable;
  - not an object;
  - no completion;
  - a non-string completion, whose `trim` throws a `TypeError`;
  - a string completion.
- The two system prompt texts (lines 146-186) are kept opaque as
  `EnglishToRussianPrompt` and `RussianToEnglishPrompt`. Only which one is
  sent is modelled.
- Out of scope: toasts, animations, haptics, the keyboard, the theme,
  `getLanguageLabel`, the JSX, and `console` logging. `OnSettled` returns
  the toast text instead of showing it.
- `handleCopy` (lines 425-438) is left out: it only hands the translation to
  the clipboard, a library call with no state of its own.
- react-query's mutation lifecycle is not modelled. `isPending` appears only
  as a parameter of `Screen.TranslateEnabled`, and `HandleTranslate` returns
  the request it would start instead of starting it.
- JavaScript strings are sequences of UTF-16 code units. Here they are
  sequences of code points, so the 5000-character limit counts code points.
  It differs from the app only for text outside the Basic Multilingual Plane.
- Full regular-expression semantics are not modelled. Only the patterns the
  screen uses are: `\s` as one fixed whitespace set, `\b` on ASCII word
  characters, and literal terms.
- Requests.Rewrite: its own contract states only the shape of the catch block's
  message, the thrown message with a pass-through keyword or one of five
  fixed messages. Which rule applies to which rejection is stated by
  `AbortRetried`, `FetchFailureRetried`, `OtherRejectionRetried` and
  `NonErrorRetried`, and for the statuses by `StatusRetried` and
  `ClientErrorRetried`.
- Requests.MakeRequest: the normal form is stated only for results not bound
  for Russian. The corrections can reintroduce a hyphen through "кофе-брейк",
  so for those results only the equation with `Corrected(Normalize(...))` is
  stated.
