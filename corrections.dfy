/**
 * `applyCustomCorrections` (app/index.tsx:88-139): when translating into
 * Russian, rewrite a fixed list of English terms that the model tends to
 * leave untranslated. For each entry in table order the whole text goes
 * through `text.replace(new RegExp('\\b' + term + '\\b', 'g'), replacement)`:
 * case-sensitive, global, and anchored at ASCII word boundaries. No term holds
 * a regular-expression metacharacter and no replacement holds a `$` pattern,
 * so terms and replacements act as plain text.
 */
module Corrections {
  import opened Text

  datatype Correction = Correction(term: string, replacement: string)

  /**
   * What every entry of the table satisfies: the term begins and ends with an
   * ASCII word character, and the replacement is non-empty Cyrillic text
   * without any ASCII word character.
   */
  predicate WellFormed(e: Correction)
  {
    && 0 < |e.term|
    && IsWordChar(e.term[0])
    && IsWordChar(e.term[|e.term| - 1])
    && 0 < |e.replacement|
    && NoWordChars(e.replacement)
  }

  type Entry = e: Correction | WellFormed(e) witness Correction("a", "-")

  // The table, in source order. Within each commented group of the source the
  // entries are kept together by English term, its capitalised spellings
  // included.

  /** Apps and services (app/index.tsx:91-98). */
  const WhatsAppEntries: seq<Entry> := [
    Correction("WhatsApp", "Ватсап"),
    Correction("whatsapp", "ватсап"),
    Correction("Whatsapp", "Ватсап")
  ]
  const TelegramEntries: seq<Entry> := [
    Correction("Telegram", "Телеграм"),
    Correction("telegram", "телеграм")
  ]
  const CeoUpperCase: Entry := Correction("CEO", "генеральный директор")
  const CeoLowerCase: Entry := Correction("ceo", "генеральный директор")
  const CeoEntries: seq<Entry> := [CeoUpperCase, CeoLowerCase]
  const AppsAndServices: seq<Entry> := WhatsAppEntries + TelegramEntries + CeoEntries

  /** Meals (app/index.tsx:100-110). */
  const BreakfastEntries: seq<Entry> := [
    Correction("breakfast", "завтрак"),
    Correction("Breakfast", "Завтрак")
  ]
  const LunchEntries: seq<Entry> := [
    Correction("lunch", "обед"),
    Correction("Lunch", "Обед")
  ]
  const DinnerEntries: seq<Entry> := [
    Correction("dinner", "ужин"),
    Correction("Dinner", "Ужин")
  ]
  const BrunchLower: Entry := Correction("brunch", "поздний завтрак")
  const BrunchCapitalised: Entry := Correction("Brunch", "Поздний завтрак")
  const BrunchEntries: seq<Entry> := [BrunchLower, BrunchCapitalised]
  const SupperEntries: seq<Entry> := [
    Correction("supper", "ужин"),
    Correction("Supper", "Ужин")
  ]
  const Meals: seq<Entry> := BreakfastEntries + LunchEntries + DinnerEntries + BrunchEntries + SupperEntries

  /** Additional meal-related terms (app/index.tsx:112-120). */
  const SnackEntries: seq<Entry> := [
    Correction("snack", "перекус"),
    Correction("Snack", "Перекус")
  ]
  const TeaTimeEntries: seq<Entry> := [
    Correction("tea time", "чаепитие"),
    Correction("Tea time", "Чаепитие")
  ]
  const CoffeeBreakEntries: seq<Entry> := [
    Correction("coffee break", "кофе-брейк"),
    Correction("Coffee break", "Кофе-брейк")
  ]
  const MidnightSnackLower: Entry := Correction("midnight snack", "ночной перекус")
  const MidnightSnackCapitalised: Entry := Correction("Midnight snack", "Ночной перекус")
  const MidnightSnackEntries: seq<Entry> := [MidnightSnackLower, MidnightSnackCapitalised]
  const MealTerms: seq<Entry> := SnackEntries + TeaTimeEntries + CoffeeBreakEntries + MidnightSnackEntries

  /** Time-related meal expressions (app/index.tsx:122-128). */
  const MorningMealLower: Entry := Correction("morning meal", "утренний прием пищи")
  const MorningMealCapitalised: Entry := Correction("Morning meal", "Утренний прием пищи")
  const MorningMealEntries: seq<Entry> := [MorningMealLower, MorningMealCapitalised]
  const EveningMealLower: Entry := Correction("evening meal", "вечерний прием пищи")
  const EveningMealCapitalised: Entry := Correction("Evening meal", "Вечерний прием пищи")
  const EveningMealEntries: seq<Entry> := [EveningMealLower, EveningMealCapitalised]
  const MiddayMealLower: Entry := Correction("midday meal", "дневной прием пищи")
  const MiddayMealCapitalised: Entry := Correction("Midday meal", "Дневной прием пищи")
  const MiddayMealEntries: seq<Entry> := [MiddayMealLower, MiddayMealCapitalised]
  const MealTimes: seq<Entry> := MorningMealEntries + EveningMealEntries + MiddayMealEntries

  /**
   * The `corrections` object literal (lines 90-130) in the order
   * `Object.entries` yields it: insertion order, since no key looks like an
   * array index.
   */
  const Table: seq<Entry> := AppsAndServices + Meals + MealTerms + MealTimes

  // ---------------------------------------------------------------------------
  // Whole-word matching
  // ---------------------------------------------------------------------------

  predicate IsWordAt(t: string, j: int)
  {
    0 <= j < |t| && IsWordChar(t[j])
  }

  /** `\b` at position `j` of `t`. */
  predicate IsBoundary(t: string, j: int)
  {
    IsWordAt(t, j - 1) != IsWordAt(t, j)
  }

  /** `\bterm\b` matches `t` at position `i`. */
  predicate MatchesAt(t: string, term: string, i: nat)
  {
    OccursAt(t, term, i) && IsBoundary(t, i) && IsBoundary(t, i + |term|)
  }

  /** `t` holds `term` as a whole word somewhere. */
  predicate HasWholeWord(t: string, term: string)
  {
    exists q: nat | q <= |t| :: MatchesAt(t, term, q)
  }

  /**
   * The global replacement of `\bterm\b` in `t`, from position `i` on: the
   * boundary tests look at the characters of `t` around the match, and the
   * scan resumes after each replaced match.
   */
  function ReplaceFrom(t: string, term: string, replacement: string, i: nat): (r: string)
    requires 0 < |term| && i <= |t|
    decreases |t| - i
  {
    if i == |t| then []
    else if MatchesAt(t, term, i) then replacement + ReplaceFrom(t, term, replacement, i + |term|)
    else [t[i]] + ReplaceFrom(t, term, replacement, i + 1)
  }

  /** `t.replace(new RegExp('\\b' + e.term + '\\b', 'g'), e.replacement)` (lines 134-135). */
  function ReplaceWholeWord(t: string, e: Entry): string
  {
    ReplaceFrom(t, e.term, e.replacement, 0)
  }

  /** With no whole-word match from `i` on, the scan copies the rest of `t`. */
  lemma {:induction false} ReplaceFromUnchanged(t: string, term: string, replacement: string, i: nat)
    requires 0 < |term| && i <= |t|
    requires !HasWholeWord(t, term)
    ensures ReplaceFrom(t, term, replacement, i) == t[i..]
    decreases |t| - i
  {
    if i < |t| {
      assert t[i..] == [t[i]] + t[i + 1..];
      ReplaceFromUnchanged(t, term, replacement, i + 1);
    }
  }

  /** A term followed (or preceded) by a word character is not a whole-word match. */
  lemma InsideLongerWordNoMatch(t: string, term: string, i: nat)
    requires OccursAt(t, term, i) && 0 < |term|
    requires IsWordChar(term[0]) && IsWordChar(term[|term| - 1])
    requires IsWordAt(t, i - 1) || IsWordAt(t, i + |term|)
    ensures !MatchesAt(t, term, i)
  {
    OccursAtChar(t, term, i, 0);
    OccursAtChar(t, term, i, |term| - 1);
  }

  /**
   * A stretch of `t` without word characters is copied as it is: no term can
   * match inside it, since every term starts with a word character.
   */
  lemma {:induction false} CopiesWordless(t: string, e: Entry, i: nat, j: nat)
    requires i <= j <= |t|
    requires forall k :: i <= k < j ==> !IsWordChar(t[k])
    ensures ReplaceFrom(t, e.term, e.replacement, i) == t[i..j] + ReplaceFrom(t, e.term, e.replacement, j)
    decreases j - i
  {
    if i < j {
      if MatchesAt(t, e.term, i) {
        OccursAtChar(t, e.term, i, 0);
        assert false;
      }
      var rest := ReplaceFrom(t, e.term, e.replacement, j);
      CopiesWordless(t, e, i + 1, j);
      calc {
        ReplaceFrom(t, e.term, e.replacement, i);
        [t[i]] + ReplaceFrom(t, e.term, e.replacement, i + 1);
        [t[i]] + (t[i + 1..j] + rest);
        { assert [t[i]] + t[i + 1..j] == t[i..j]; }
        t[i..j] + rest;
      }
    }
  }

  /**
   * The term standing alone between text without word characters is
   * replaced by its Russian counterpart, and the text around it is kept.
   */
  lemma ReplaceLoneTerm(a: string, b: string, e: Entry)
    requires NoWordChars(a) && NoWordChars(b)
    ensures ReplaceWholeWord(a + e.term + b, e) == a + e.replacement + b
  {
    var t := a + e.term + b;
    var i, j := |a|, |a| + |e.term|;
    forall k | 0 <= k < i ensures !IsWordChar(t[k]) {
      assert t[k] == a[k];
    }
    forall k | j <= k < |t| ensures !IsWordChar(t[k]) {
      assert t[k] == b[k - j];
    }
    assert t[i..j] == e.term;
    assert MatchesAt(t, e.term, i) by {
      assert t[i] == e.term[0] && t[j - 1] == e.term[|e.term| - 1];
    }
    CopiesWordless(t, e, 0, i);
    CopiesWordless(t, e, j, |t|);
    calc {
      ReplaceFrom(t, e.term, e.replacement, 0);
      t[0..i] + ReplaceFrom(t, e.term, e.replacement, i);
      t[0..i] + (e.replacement + ReplaceFrom(t, e.term, e.replacement, j));
      { assert t[0..i] == a && t[j..|t|] == b; }
      a + (e.replacement + (b + []));
      { assert b + [] == b; }
      a + e.replacement + b;
    }
  }

  // ---------------------------------------------------------------------------
  // A replacement creates no new whole-word occurrence of a word
  // ---------------------------------------------------------------------------

  /**
   * `w` stands at `p` in the suffix `u` of some output with whole-word
   * neighbours; `leftWord` tells whether the output character before `u` is a
   * word character.
   */
  predicate WholeWordAfter(u: string, w: string, p: nat, leftWord: bool)
  {
    && OccursAt(u, w, p)
    && (if p == 0 then !leftWord else !IsWordChar(u[p - 1]))
    && (p + |w| == |u| || !IsWordChar(u[p + |w|]))
  }

  lemma WholeWordFromMatch(u: string, w: string, p: nat)
    requires 0 < |w| && AllWordChars(w) && MatchesAt(u, w, p)
    ensures WholeWordAfter(u, w, p, false)
  {
    OccursAtChar(u, w, p, 0);
    OccursAtChar(u, w, p, |w| - 1);
  }

  lemma ReplacementStartsWithNonWord(t: string, e: Entry, i: nat)
    requires i < |t| && MatchesAt(t, e.term, i)
    ensures ReplaceFrom(t, e.term, e.replacement, i)[..|e.replacement|] == e.replacement
    ensures forall k :: 0 <= k < |e.replacement| ==> !IsWordChar(ReplaceFrom(t, e.term, e.replacement, i)[k])
  {
    var u := ReplaceFrom(t, e.term, e.replacement, i);
    forall k | 0 <= k < |e.replacement| ensures !IsWordChar(u[k]) {
      assert u[k] == e.replacement[k];
    }
  }

  /**
   * A leading run of `n` word characters of the output from `i` is copied
   * unchanged from `t[i..]`, and the scan goes on from `i + n`.
   */
  lemma {:induction false} CopiedRun(t: string, e: Entry, i: nat, n: nat)
    requires i <= |t|
    requires n <= |ReplaceFrom(t, e.term, e.replacement, i)|
    requires forall k :: 0 <= k < n ==> IsWordChar(ReplaceFrom(t, e.term, e.replacement, i)[k])
    ensures i + n <= |t|
    ensures t[i..i + n] == ReplaceFrom(t, e.term, e.replacement, i)[..n]
    ensures ReplaceFrom(t, e.term, e.replacement, i + n) == ReplaceFrom(t, e.term, e.replacement, i)[n..]
    ensures 0 < n ==> !MatchesAt(t, e.term, i)
    decreases n
  {
    var u := ReplaceFrom(t, e.term, e.replacement, i);
    if 0 < n {
      assert IsWordChar(u[0]);
      if MatchesAt(t, e.term, i) {
        ReplacementStartsWithNonWord(t, e, i);
        assert false;
      }
      var rest := ReplaceFrom(t, e.term, e.replacement, i + 1);
      assert u == [t[i]] + rest;
      forall k | 0 <= k < n - 1 ensures IsWordChar(rest[k]) {
        assert rest[k] == u[k + 1];
      }
      CopiedRun(t, e, i + 1, n - 1);
      assert t[i..i + n] == [t[i]] + t[i + 1..i + n];
      assert u[..n] == [t[i]] + rest[..n - 1];
      assert u[n..] == rest[n - 1..];
    }
  }

  /** Dropping a non-empty prefix `seg` that ends before `w` keeps `w` standing whole. */
  lemma WholeWordAfterSuffix(seg: string, rest: string, w: string, p: nat, leftWord: bool)
    requires 0 < |seg| <= p
    requires WholeWordAfter(seg + rest, w, p, leftWord)
    ensures WholeWordAfter(rest, w, p - |seg|, IsWordChar(seg[|seg| - 1]))
  {
    var u := seg + rest;
    var p' := p - |seg|;
    assert u[p..p + |w|] == rest[p'..p' + |w|];
    if p' > 0 {
      assert rest[p' - 1] == u[p - 1];
    } else {
      assert u[p - 1] == seg[|seg| - 1];
    }
    if p + |w| < |u| {
      assert rest[p' + |w|] == u[p + |w|];
    }
  }

  /** A whole word at the very start of the output from `i` was a whole word of `t`. */
  lemma WholeWordAtStart(t: string, e: Entry, w: string, i: nat, leftWord: bool)
    requires 0 < |w| && AllWordChars(w) && i <= |t|
    requires leftWord ==> 0 < i && IsWordChar(t[i - 1])
    requires !leftWord && 0 < i && IsWordChar(t[i - 1]) ==> !IsWordAt(t, i)
    requires WholeWordAfter(ReplaceFrom(t, e.term, e.replacement, i), w, 0, leftWord)
    ensures MatchesAt(t, w, i) && !MatchesAt(t, e.term, i)
  {
    var u := ReplaceFrom(t, e.term, e.replacement, i);
    forall k | 0 <= k < |w| ensures IsWordChar(u[k]) {
      OccursAtChar(u, w, 0, k);
    }
    CopiedRun(t, e, i, |w|);
    var j := i + |w|;
    assert t[i..j] == w;
    assert t[i] == w[0] && t[j - 1] == w[|w| - 1];
    if j < |t| {
      var rest := ReplaceFrom(t, e.term, e.replacement, j);
      if !MatchesAt(t, e.term, j) {
        assert u[|w|] == rest[0] == t[j];
      }
    }
  }

  /** Where the term matches at `i`, the output from `i` is the replacement followed by the scan after the match. */
  lemma ReplaceFromAtMatch(t: string, e: Entry, i: nat)
    requires i <= |t| && MatchesAt(t, e.term, i)
    ensures i + |e.term| <= |t|
    ensures ReplaceFrom(t, e.term, e.replacement, i) == e.replacement + ReplaceFrom(t, e.term, e.replacement, i + |e.term|)
    ensures !IsWordAt(t, i + |e.term|)
  {
    OccursAtChar(t, e.term, i, |e.term| - 1);
  }

  /** A word character of the output from a match lies past the replacement. */
  lemma WordPastReplacement(t: string, e: Entry, i: nat, p: nat)
    requires i <= |t| && MatchesAt(t, e.term, i)
    requires p < |ReplaceFrom(t, e.term, e.replacement, i)| && IsWordChar(ReplaceFrom(t, e.term, e.replacement, i)[p])
    ensures |e.replacement| <= p
  {
    if p < |e.replacement| {
      ReplacementStartsWithNonWord(t, e, i);
      assert false;
    }
  }

  /**
   * Where the term matches at `i`, a whole word `w` standing past the start
   * of the output lies past the replacement, in the output of the scan that
   * resumes after the match.
   */
  lemma MatchStep(t: string, e: Entry, w: string, i: nat, leftWord: bool, p: nat)
    requires 0 < |w| && AllWordChars(w) && i <= |t| && 0 < p
    requires MatchesAt(t, e.term, i)
    requires WholeWordAfter(ReplaceFrom(t, e.term, e.replacement, i), w, p, leftWord)
    ensures |e.replacement| <= p && i + |e.term| <= |t|
    ensures !IsWordAt(t, i + |e.term|)
    ensures WholeWordAfter(ReplaceFrom(t, e.term, e.replacement, i + |e.term|), w, p - |e.replacement|, false)
  {
    var u := ReplaceFrom(t, e.term, e.replacement, i);
    OccursAtChar(u, w, p, 0);
    WordPastReplacement(t, e, i, p);
    ReplaceFromAtMatch(t, e, i);
    WholeWordAfterSuffix(e.replacement, ReplaceFrom(t, e.term, e.replacement, i + |e.term|), w, p, leftWord);
  }

  /**
   * Where the term does not match at `i`, the scan copies `t[i]`, and a whole
   * word past the start of the output stands in the output of the scan from
   * `i + 1`.
   */
  lemma CopyStep(t: string, e: Entry, w: string, i: nat, leftWord: bool, p: nat)
    requires i <= |t| && 0 < p
    requires !MatchesAt(t, e.term, i)
    requires WholeWordAfter(ReplaceFrom(t, e.term, e.replacement, i), w, p, leftWord)
    ensures i < |t|
    ensures WholeWordAfter(ReplaceFrom(t, e.term, e.replacement, i + 1), w, p - 1, IsWordChar(t[i]))
  {
    var rest := ReplaceFrom(t, e.term, e.replacement, i + 1);
    assert ReplaceFrom(t, e.term, e.replacement, i) == [t[i]] + rest;
    WholeWordAfterSuffix([t[i]], rest, w, p, leftWord);
  }

  /**
   * A whole word `w` standing at `p` in the output of the scan from `i` was
   * already a whole word of `t`, at a position where the term did not match.
   */
  lemma {:induction false} NoNewWholeWordFrom(t: string, e: Entry, w: string, i: nat, leftWord: bool, p: nat)
    requires 0 < |w| && AllWordChars(w) && i <= |t|
    requires leftWord ==> 0 < i && IsWordChar(t[i - 1])
    requires !leftWord && 0 < i && IsWordChar(t[i - 1]) ==> !IsWordAt(t, i)
    requires WholeWordAfter(ReplaceFrom(t, e.term, e.replacement, i), w, p, leftWord)
    ensures exists q: nat | i <= q <= |t| :: MatchesAt(t, w, q) && !MatchesAt(t, e.term, q)
    decreases |t| - i
  {
    if p == 0 {
      WholeWordAtStart(t, e, w, i, leftWord);
    } else if MatchesAt(t, e.term, i) {
      MatchStep(t, e, w, i, leftWord, p);
      NoNewWholeWordFrom(t, e, w, i + |e.term|, false, p - |e.replacement|);
    } else {
      CopyStep(t, e, w, i, leftWord, p);
      NoNewWholeWordFrom(t, e, w, i + 1, IsWordChar(t[i]), p - 1);
    }
  }

  /**
   * Replacing the whole-word matches of a single-word term leaves no
   * whole-word occurrence of that term behind.
   */
  lemma ReplaceLeavesNoMatch(t: string, e: Entry)
    requires AllWordChars(e.term)
    ensures !HasWholeWord(ReplaceWholeWord(t, e), e.term)
  {
    var u := ReplaceWholeWord(t, e);
    if p: nat :| p <= |u| && MatchesAt(u, e.term, p) {
      WholeWordFromMatch(u, e.term, p);
      NoNewWholeWordFrom(t, e, e.term, 0, false, p);
      assert false;
    }
  }

  /** A replacement does not create a whole word that was not already there. */
  lemma ReplaceKeepsWordAbsent(t: string, e: Entry, w: string)
    requires 0 < |w| && AllWordChars(w)
    requires !HasWholeWord(t, w)
    ensures !HasWholeWord(ReplaceWholeWord(t, e), w)
  {
    var u := ReplaceWholeWord(t, e);
    if p: nat :| p <= |u| && MatchesAt(u, w, p) {
      WholeWordFromMatch(u, w, p);
      NoNewWholeWordFrom(t, e, w, 0, false, p);
      assert false;
    }
  }

  // ---------------------------------------------------------------------------
  // The whole table
  // ---------------------------------------------------------------------------

  /** The replacements of `es` applied one after another, as the `forEach` does. */
  function ApplyAll(t: string, es: seq<Entry>): string
    decreases |es|
  {
    if es == [] then t else ApplyAll(ReplaceWholeWord(t, es[0]), es[1..])
  }

  lemma {:induction false} ApplyAllConcat(t: string, a: seq<Entry>, b: seq<Entry>)
    ensures ApplyAll(t, a + b) == ApplyAll(ApplyAll(t, a), b)
    decreases |a|
  {
    if a == [] {
      assert a + b == b;
    } else {
      assert (a + b)[0] == a[0] && (a + b)[1..] == a[1..] + b;
      ApplyAllConcat(ReplaceWholeWord(t, a[0]), a[1..], b);
    }
  }

  lemma {:induction false} ApplyAllKeepsWordAbsent(t: string, es: seq<Entry>, w: string)
    requires 0 < |w| && AllWordChars(w) && !HasWholeWord(t, w)
    ensures !HasWholeWord(ApplyAll(t, es), w)
    decreases |es|
  {
    if es != [] {
      ReplaceKeepsWordAbsent(t, es[0], w);
      ApplyAllKeepsWordAbsent(ReplaceWholeWord(t, es[0]), es[1..], w);
    }
  }

  /** A text with no ASCII word character goes through every replacement unchanged. */
  lemma {:induction false} ApplyAllWordless(t: string, es: seq<Entry>)
    requires NoWordChars(t)
    ensures ApplyAll(t, es) == t
    decreases |es|
  {
    if es != [] {
      ReplaceFromUnchanged(t, es[0].term, es[0].replacement, 0);
      ApplyAllWordless(t, es[1..]);
    }
  }

  /** The result `applyCustomCorrections(text, isToRussian)` returns. */
  function Corrected(text: string, isToRussian: bool): string
  {
    if isToRussian then ApplyAll(text, Table) else text
  }

  /**
   * `applyCustomCorrections` (lines 88-139): the `forEach` over the table
   * reassigns `correctedText` once per entry.
   */
  method ApplyCustomCorrections(text: string, isToRussian: bool) returns (correctedText: string)
    ensures correctedText == Corrected(text, isToRussian)
    ensures !isToRussian ==> correctedText == text
  {
    if !isToRussian {
      return text;
    }
    correctedText := text;
    var i := 0;
    while i < |Table|
      invariant 0 <= i <= |Table|
      invariant ApplyAll(correctedText, Table[i..]) == ApplyAll(text, Table)
    {
      assert Table[i..][0] == Table[i] && Table[i..][1..] == Table[i + 1..];
      correctedText := ReplaceWholeWord(correctedText, Table[i]);
      i := i + 1;
    }
  }

  predicate IsAsciiLetter(c: char)
  {
    'A' <= c <= 'Z' || 'a' <= c <= 'z'
  }

  /** Every term of `es` starts with an ASCII letter. */
  predicate TermsStartWithLetter(es: seq<Entry>)
  {
    forall i :: 0 <= i < |es| ==> IsAsciiLetter(es[i].term[0])
  }

  lemma TermsStartWithLetterConcat(a: seq<Entry>, b: seq<Entry>)
    requires TermsStartWithLetter(a) && TermsStartWithLetter(b)
    ensures TermsStartWithLetter(a + b)
  {
    forall i | 0 <= i < |a + b| ensures IsAsciiLetter((a + b)[i].term[0]) {
      if i < |a| {
        assert (a + b)[i] == a[i];
      } else {
        assert (a + b)[i] == b[i - |a|];
      }
    }
  }

  lemma AppsAndServicesStartWithLetter()
    ensures TermsStartWithLetter(AppsAndServices)
  {
    assert TermsStartWithLetter(WhatsAppEntries);
    assert TermsStartWithLetter(TelegramEntries);
    assert TermsStartWithLetter(CeoEntries);
    TermsStartWithLetterConcat(WhatsAppEntries, TelegramEntries);
    TermsStartWithLetterConcat(WhatsAppEntries + TelegramEntries, CeoEntries);
  }

  lemma MealsStartWithLetter()
    ensures TermsStartWithLetter(Meals)
  {
    assert TermsStartWithLetter(BreakfastEntries);
    assert TermsStartWithLetter(LunchEntries);
    assert TermsStartWithLetter(DinnerEntries);
    assert TermsStartWithLetter(BrunchEntries);
    assert TermsStartWithLetter(SupperEntries);
    TermsStartWithLetterConcat(BreakfastEntries, LunchEntries);
    TermsStartWithLetterConcat(BreakfastEntries + LunchEntries, DinnerEntries);
    TermsStartWithLetterConcat(BreakfastEntries + LunchEntries + DinnerEntries, BrunchEntries);
    TermsStartWithLetterConcat(BreakfastEntries + LunchEntries + DinnerEntries + BrunchEntries, SupperEntries);
  }

  lemma MealTermsStartWithLetter()
    ensures TermsStartWithLetter(MealTerms)
  {
    assert TermsStartWithLetter(SnackEntries);
    assert TermsStartWithLetter(TeaTimeEntries);
    assert TermsStartWithLetter(CoffeeBreakEntries);
    assert TermsStartWithLetter(MidnightSnackEntries);
    TermsStartWithLetterConcat(SnackEntries, TeaTimeEntries);
    TermsStartWithLetterConcat(SnackEntries + TeaTimeEntries, CoffeeBreakEntries);
    TermsStartWithLetterConcat(SnackEntries + TeaTimeEntries + CoffeeBreakEntries, MidnightSnackEntries);
  }

  lemma MealTimesStartWithLetter()
    ensures TermsStartWithLetter(MealTimes)
  {
    assert TermsStartWithLetter(MorningMealEntries);
    assert TermsStartWithLetter(EveningMealEntries);
    assert TermsStartWithLetter(MiddayMealEntries);
    TermsStartWithLetterConcat(MorningMealEntries, EveningMealEntries);
    TermsStartWithLetterConcat(MorningMealEntries + EveningMealEntries, MiddayMealEntries);
  }

  /** Every term of the table starts with an ASCII letter. */
  lemma TableTermsStartWithLetter()
    ensures forall e :: e in Table ==> IsAsciiLetter(e.term[0])
  {
    AppsAndServicesStartWithLetter();
    MealsStartWithLetter();
    MealTermsStartWithLetter();
    MealTimesStartWithLetter();
    TermsStartWithLetterConcat(AppsAndServices, Meals);
    TermsStartWithLetterConcat(AppsAndServices + Meals, MealTerms);
    TermsStartWithLetterConcat(AppsAndServices + Meals + MealTerms, MealTimes);
  }

  /** Text without any ASCII letter is never corrected: no term can start in it. */
  lemma WordlessTextUnchanged(text: string, isToRussian: bool)
    requires forall i :: 0 <= i < |text| ==> !IsAsciiLetter(text[i])
    ensures Corrected(text, isToRussian) == text
  {
    TableTermsStartWithLetter();
    forall e | e in Table
      ensures !HasWholeWord(text, e.term)
    {
      forall q: nat | q <= |text| && MatchesAt(text, e.term, q)
        ensures false
      {
        OccursAtChar(text, e.term, q, 0);
      }
    }
    ApplyAllNoMatch(text, Table);
  }

  /**
   * The first entry of the table at work: "WhatsApp" standing alone becomes
   * "Ватсап", and no later entry touches the result, which has no ASCII word
   * character left.
   */
  lemma LoneWhatsAppCorrected(a: string, b: string)
    requires NoWordChars(a) && NoWordChars(b)
    ensures Corrected(a + "WhatsApp" + b, true) == a + "Ватсап" + b
  {
    var e := Table[0];
    assert e == Correction("WhatsApp", "Ватсап");
    ReplaceLoneTerm(a, b, e);
    var u := a + e.replacement + b;
    assert NoWordChars(u) by {
      forall k | 0 <= k < |u| ensures !IsWordChar(u[k]) {
        if k < |a| {
          assert u[k] == a[k];
        } else if k < |a| + |e.replacement| {
          assert u[k] == e.replacement[k - |a|];
        } else {
          assert u[k] == b[k - |a| - |e.replacement|];
        }
      }
    }
    ApplyAllWordless(u, Table[1..]);
  }

  /**
   * The last word of a multi-word term is itself a whole-word match wherever
   * the term is.
   */
  lemma LastWordMatches(t: string, first: string, w: string, q: nat)
    requires 0 < |w| && AllWordChars(w)
    requires MatchesAt(t, first + " " + w, q)
    ensures MatchesAt(t, w, q + |first| + 1)
  {
    var term := first + " " + w;
    OccursAtChar(t, term, q, |first|);
    assert t[q + |first| + 1..q + |first| + 1 + |w|] == t[q..q + |term|][|first| + 1..];
    OccursAtChar(t, w, q + |first| + 1, 0);
  }

  /**
   * In a text made of word characters alone a term can match only the whole
   * text: every inner position lies between two word characters, so `\b`
   * holds only at the two ends.
   */
  lemma SingleWordMatchesOnlyItself(t: string, term: string, q: nat)
    requires AllWordChars(t) && 0 < |term| && MatchesAt(t, term, q)
    ensures q == 0 && term == t
  {
    if 0 < q {
      assert false;
    }
    if |term| < |t| {
      assert false;
    }
    assert t[0..|t|] == t;
  }

  /**
   * A single word that is not itself a term of the table comes back
   * uncorrected: a term inside a longer word ("Whatsapping") or spelt in
   * another case ("WHATSAPP") is not matched.
   */
  lemma SingleWordUncorrected(word: string)
    requires AllWordChars(word)
    requires forall e :: e in Table ==> e.term != word
    ensures Corrected(word, true) == word
  {
    forall e | e in Table ensures !HasWholeWord(word, e.term) {
      if q: nat :| q <= |word| && MatchesAt(word, e.term, q) {
        SingleWordMatchesOnlyItself(word, e.term, q);
        assert false;
      }
    }
    ApplyAllNoMatch(word, Table);
  }

  /** No term of `es` is `w`. */
  predicate TermsDiffer(es: seq<Entry>, w: string)
  {
    forall i :: 0 <= i < |es| ==> es[i].term != w
  }

  lemma TermsDifferConcat(a: seq<Entry>, b: seq<Entry>, w: string)
    requires TermsDiffer(a, w) && TermsDiffer(b, w)
    ensures TermsDiffer(a + b, w)
  {
    forall i | 0 <= i < |a + b| ensures (a + b)[i].term != w {
      if i < |a| {
        assert (a + b)[i] == a[i];
      } else {
        assert (a + b)[i] == b[i - |a|];
      }
    }
  }

  /**
   * A shape no term of the table has: a capital second letter in a word of
   * other than three letters (only "CEO" has one), or a leading `W` in a
   * word of other than eight letters (only "WhatsApp" and "Whatsapp" have
   * one).
   */
  predicate NotTermShaped(w: string)
  {
    || (2 <= |w| && |w| != 3 && 'A' <= w[1] <= 'Z')
    || (0 < |w| && |w| != 8 && w[0] == 'W')
  }

  lemma AppsAndServicesDiffer(w: string)
    requires NotTermShaped(w)
    ensures TermsDiffer(AppsAndServices, w)
  {
    assert TermsDiffer(WhatsAppEntries, w) && TermsDiffer(TelegramEntries, w) && TermsDiffer(CeoEntries, w);
    TermsDifferConcat(WhatsAppEntries, TelegramEntries, w);
    TermsDifferConcat(WhatsAppEntries + TelegramEntries, CeoEntries, w);
  }

  lemma MealsDiffer(w: string)
    requires NotTermShaped(w)
    ensures TermsDiffer(Meals, w)
  {
    assert TermsDiffer(BreakfastEntries, w) && TermsDiffer(LunchEntries, w) && TermsDiffer(DinnerEntries, w);
    assert TermsDiffer(BrunchEntries, w) && TermsDiffer(SupperEntries, w);
    TermsDifferConcat(BreakfastEntries, LunchEntries, w);
    TermsDifferConcat(BreakfastEntries + LunchEntries, DinnerEntries, w);
    TermsDifferConcat(BreakfastEntries + LunchEntries + DinnerEntries, BrunchEntries, w);
    TermsDifferConcat(BreakfastEntries + LunchEntries + DinnerEntries + BrunchEntries, SupperEntries, w);
  }

  lemma MealTermsDiffer(w: string)
    requires NotTermShaped(w)
    ensures TermsDiffer(MealTerms, w)
  {
    assert TermsDiffer(SnackEntries, w) && TermsDiffer(TeaTimeEntries, w);
    assert TermsDiffer(CoffeeBreakEntries, w) && TermsDiffer(MidnightSnackEntries, w);
    TermsDifferConcat(SnackEntries, TeaTimeEntries, w);
    TermsDifferConcat(SnackEntries + TeaTimeEntries, CoffeeBreakEntries, w);
    TermsDifferConcat(SnackEntries + TeaTimeEntries + CoffeeBreakEntries, MidnightSnackEntries, w);
  }

  lemma MealTimesDiffer(w: string)
    requires NotTermShaped(w)
    ensures TermsDiffer(MealTimes, w)
  {
    assert TermsDiffer(MorningMealEntries, w) && TermsDiffer(EveningMealEntries, w) && TermsDiffer(MiddayMealEntries, w);
    TermsDifferConcat(MorningMealEntries, EveningMealEntries, w);
    TermsDifferConcat(MorningMealEntries + EveningMealEntries, MiddayMealEntries, w);
  }

  /** A word of a shape no term has is no term of the table. */
  lemma NotTermShapedDiffers(w: string)
    requires NotTermShaped(w)
    ensures forall e :: e in Table ==> e.term != w
  {
    AppsAndServicesDiffer(w);
    MealsDiffer(w);
    MealTermsDiffer(w);
    MealTimesDiffer(w);
    TermsDifferConcat(AppsAndServices, Meals, w);
    TermsDifferConcat(AppsAndServices + Meals, MealTerms, w);
    TermsDifferConcat(AppsAndServices + Meals + MealTerms, MealTimes, w);
    forall e | e in Table ensures e.term != w {
      var i :| 0 <= i < |Table| && Table[i] == e;
    }
  }

  /** A single word of a shape no term has comes back uncorrected. */
  lemma ShapedWordUncorrected(w: string)
    requires AllWordChars(w) && NotTermShaped(w)
    ensures Corrected(w, true) == w
  {
    NotTermShapedDiffers(w);
    SingleWordUncorrected(w);
  }

  /** The upper-case spelling "WHATSAPP" is not matched by the entries for "WhatsApp". */
  lemma UpperCaseWhatsAppUncorrected()
    ensures Corrected("WHATSAPP", true) == "WHATSAPP"
  {
    var w := "WHATSAPP";
    assert |w| == 8 && w[1] == 'H';
    assert AllWordChars(w);
    ShapedWordUncorrected(w);
  }

  /** "Whatsapping" holds "Whatsapp" only inside a longer word, so it is not matched. */
  lemma LongerWordUncorrected()
    ensures Corrected("Whatsapping", true) == "Whatsapping"
  {
    var w := "Whatsapping";
    assert |w| == 11 && w[0] == 'W';
    assert AllWordChars(w);
    ShapedWordUncorrected(w);
  }

  /** Once a table starts with the single-word term `w`, no whole-word `w` survives it. */
  lemma ApplyAllClearsWord(t: string, es: seq<Entry>, w: string)
    requires es != [] && es[0].term == w && AllWordChars(w)
    ensures !HasWholeWord(ApplyAll(t, es), w)
  {
    ReplaceLeavesNoMatch(t, es[0]);
    ApplyAllKeepsWordAbsent(ReplaceWholeWord(t, es[0]), es[1..], w);
  }

  /** Entries whose terms do not occur as whole words leave the text as it is. */
  lemma {:induction false} ApplyAllNoMatch(t: string, es: seq<Entry>)
    requires forall e :: e in es ==> !HasWholeWord(t, e.term)
    ensures ApplyAll(t, es) == t
    decreases |es|
  {
    if es != [] {
      assert es[0] in es;
      ReplaceFromUnchanged(t, es[0].term, es[0].replacement, 0);
      assert t[0..] == t;
      ApplyAllNoMatch(t, es[1..]);
    }
  }

  /** Where no whole-word "snack" is left, neither "midnight snack" entry matches. */
  lemma MidnightSnackEntriesIdle(u: string)
    requires !HasWholeWord(u, "snack")
    ensures ApplyAll(u, MidnightSnackEntries) == u
  {
    forall e | e in MidnightSnackEntries ensures !HasWholeWord(u, e.term) {
      assert e.term == e.term[..8] + " " + "snack";
      if q: nat :| q <= |u| && MatchesAt(u, e.term, q) {
        LastWordMatches(u, e.term[..8], "snack", q);
        assert false;
      }
    }
    ApplyAllNoMatch(u, MidnightSnackEntries);
  }

  /**
   * By the time the entries "midnight snack" and "Midnight snack" are
   * reached, the earlier entry "snack" has already rewritten every whole-word
   * "snack", so the two entries never match: the table without them gives the
   * same result on every text.
   */
  lemma MidnightSnackEntriesUnreachable(text: string)
    ensures Corrected(text, true)
         == ApplyAll(text, AppsAndServices + Meals + SnackEntries + TeaTimeEntries + CoffeeBreakEntries + MealTimes)
  {
    var head := AppsAndServices + Meals + SnackEntries;
    var middle := TeaTimeEntries + CoffeeBreakEntries;
    var afterSnack := ApplyAll(text, head);
    ApplyAllConcat(text, AppsAndServices + Meals, SnackEntries);
    ApplyAllClearsWord(ApplyAll(text, AppsAndServices + Meals), SnackEntries, "snack");
    var u := ApplyAll(afterSnack, middle);
    ApplyAllKeepsWordAbsent(afterSnack, middle, "snack");
    MidnightSnackEntriesIdle(u);
    ApplyAllConcat(text, head, middle);
    assert Table == head + middle + MidnightSnackEntries + MealTimes;
    ApplyAllConcat(text, head + middle, MidnightSnackEntries);
    ApplyAllConcat(text, head + middle + MidnightSnackEntries, MealTimes);
    assert AppsAndServices + Meals + SnackEntries + TeaTimeEntries + CoffeeBreakEntries == head + middle;
    ApplyAllConcat(text, head + middle, MealTimes);
  }
}
