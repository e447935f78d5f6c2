/**
 * The clean-up applied to a successful completion before terminology
 * corrections (app/index.tsx:284-292): trim, turn every em dash, en dash and
 * hyphen together with the whitespace around it into one space, collapse
 * whitespace runs, strip leading and trailing whitespace and dashes, trim.
 * Each global regular-expression replacement is modelled as the left-to-right
 * scan JavaScript performs: at each position try to match, on success emit
 * the replacement and continue after the match, otherwise copy one character.
 */
module Normalizer {
  import opened Text

  const EmDash: char := '\U{2014}'
  const EnDash: char := '\U{2013}'
  const Hyphen: char := '-'

  /** The class `[\s\-—–]` of the final anchored replacement. */
  const SpaceOrDash: set<char> := WhiteSpace + {Hyphen, EmDash, EnDash}

  /**
   * The characters of `s` the normalisation never touches: all but whitespace
   * and the three dashes, in order.
   */
  function Kept(s: string): string
  {
    Without(s, SpaceOrDash)
  }

  /** Every character of `r` is a space or already occurs in `t`. */
  predicate DrawnFrom(r: string, t: string)
  {
    forall c :: c in r ==> c == ' ' || c in t
  }

  /** The index of the first non-whitespace character at or after `i`. */
  function SkipSpaces(t: string, i: nat): (j: nat)
    requires i <= |t|
    ensures i <= j <= |t|
    ensures forall k :: i <= k < j ==> t[k] in WhiteSpace
    ensures j < |t| ==> t[j] !in WhiteSpace
    decreases |t| - i
  {
    if i < |t| && t[i] in WhiteSpace then SkipSpaces(t, i + 1) else i
  }

  /**
   * The global replacement of `\s*D\s*` by one space in `t[i..]`, for a dash
   * `D` (lines 287-289). A match starts at `i`
   * exactly when the whitespace run from `i` ends at a `D`.
   */
  function ReplaceDashFrom(t: string, dash: char, i: nat): (r: string)
    requires i <= |t| && dash !in WhiteSpace
    ensures dash !in r
    ensures DrawnFrom(r, t[i..])
    decreases |t| - i
  {
    if i == |t| then []
    else
      var j := SkipSpaces(t, i);
      if j < |t| && t[j] == dash then
        var rest := ReplaceDashFrom(t, dash, SkipSpaces(t, j + 1));
        assert forall c :: c in rest ==> c == ' ' || c in t[i..] by {
          forall c | c in rest && c != ' ' ensures c in t[i..] {
            var k :| SkipSpaces(t, j + 1) <= k < |t| && t[k] == c;
            assert t[i..][k - i] == c;
          }
        }
        [' '] + rest
      else
        var rest := ReplaceDashFrom(t, dash, i + 1);
        assert t[i..] == [t[i]] + t[i + 1..];
        [t[i]] + rest
  }

  /**
   * The replacement removes only whitespace and the dash: every other
   * character of `t[i..]` survives, in order.
   */
  lemma {:induction false} ReplaceDashFromKeeps(t: string, dash: char, i: nat)
    requires i <= |t| && dash !in WhiteSpace
    ensures Without(ReplaceDashFrom(t, dash, i), WhiteSpace + {dash}) == Without(t[i..], WhiteSpace + {dash})
    decreases |t| - i
  {
    if i < |t| {
      var j := SkipSpaces(t, i);
      if j < |t| && t[j] == dash {
        var k := SkipSpaces(t, j + 1);
        ReplaceDashFromKeeps(t, dash, k);
        assert ReplaceDashFrom(t, dash, i) == [' '] + ReplaceDashFrom(t, dash, k);
        DashMatchKeeps(t, dash, i);
      } else {
        ReplaceDashFromKeeps(t, dash, i + 1);
        NoMatchKeeps(t, dash, i);
      }
    }
  }

  /** The step of `ReplaceDashFromKeeps` where a match starts at `i`. */
  lemma DashMatchKeeps(t: string, dash: char, i: nat)
    requires i < |t| && dash !in WhiteSpace
    requires SkipSpaces(t, i) < |t| && t[SkipSpaces(t, i)] == dash
    ensures var cs := WhiteSpace + {dash};
      var k := SkipSpaces(t, SkipSpaces(t, i) + 1);
      && Without(t[i..], cs) == Without(t[k..], cs)
      && Without([' '] + ReplaceDashFrom(t, dash, k), cs) == Without(ReplaceDashFrom(t, dash, k), cs)
  {
    var cs := WhiteSpace + {dash};
    var j := SkipSpaces(t, i);
    var k := SkipSpaces(t, j + 1);
    forall m | i <= m < k
      ensures t[m] in cs
    {
      if m < j {
        assert t[m] in WhiteSpace;
      } else if j < m {
        assert t[m] in WhiteSpace;
      }
    }
    WithoutSkipped(t, cs, i, k);
    WithoutCons(' ', ReplaceDashFrom(t, dash, k), cs);
  }

  /** The step of `ReplaceDashFromKeeps` where no match starts at `i`. */
  lemma NoMatchKeeps(t: string, dash: char, i: nat)
    requires i < |t| && dash !in WhiteSpace
    requires !(SkipSpaces(t, i) < |t| && t[SkipSpaces(t, i)] == dash)
    ensures var cs := WhiteSpace + {dash};
      && ReplaceDashFrom(t, dash, i) == [t[i]] + ReplaceDashFrom(t, dash, i + 1)
      && Without(t[i..], cs) == (if t[i] in cs then [] else [t[i]]) + Without(t[i + 1..], cs)
      && Without([t[i]] + ReplaceDashFrom(t, dash, i + 1), cs)
         == (if t[i] in cs then [] else [t[i]]) + Without(ReplaceDashFrom(t, dash, i + 1), cs)
  {
    var cs := WhiteSpace + {dash};
    assert t[i..] == [t[i]] + t[i + 1..];
    WithoutCons(t[i], t[i + 1..], cs);
    WithoutCons(t[i], ReplaceDashFrom(t, dash, i + 1), cs);
  }

  /**
   * The scan from `i < |t|` emits something, and what it emits first is
   * `t[i]` itself or the space that replaces a match starting at `i`; so it
   * starts inside a run of any class holding the whitespace and the dash
   * exactly when `t[i..]` does.
   */
  lemma ReplaceDashFromHead(t: string, dash: char, i: nat, cs: set<char>)
    requires i < |t| && dash !in WhiteSpace && WhiteSpace <= cs && dash in cs
    ensures var r := ReplaceDashFrom(t, dash, i);
      r != [] && (r[0] in cs <==> t[i] in cs)
  {
    var j := SkipSpaces(t, i);
    assert ' ' in WhiteSpace;
    if j < |t| && t[j] == dash && i < j {
      assert t[i] in WhiteSpace;
    }
  }

  /** A match starting at `i` covers a nonempty run of whitespace and the dash. */
  lemma DashMatchRun(t: string, dash: char, i: nat, cs: set<char>)
    requires i < |t| && dash !in WhiteSpace && WhiteSpace <= cs && dash in cs
    requires SkipSpaces(t, i) < |t| && t[SkipSpaces(t, i)] == dash
    ensures var k := SkipSpaces(t, SkipSpaces(t, i) + 1);
      i < k && forall m :: i <= m < k ==> t[m] in cs
  {
    var j := SkipSpaces(t, i);
    var k := SkipSpaces(t, j + 1);
    forall m | i <= m < k
      ensures t[m] in cs
    {
      if m != j {
        assert t[m] in WhiteSpace;
      }
    }
  }

  /** The step of `ReplaceDashFromSquash` where a match starts at `i`. */
  lemma DashMatchSquash(t: string, dash: char, i: nat, cs: set<char>)
    requires i < |t| && dash !in WhiteSpace && WhiteSpace <= cs && dash in cs
    requires SkipSpaces(t, i) < |t| && t[SkipSpaces(t, i)] == dash
    requires var k := SkipSpaces(t, SkipSpaces(t, i) + 1);
      Squash(ReplaceDashFrom(t, dash, k), cs) == Squash(t[k..], cs)
    ensures var k := SkipSpaces(t, SkipSpaces(t, i) + 1);
      Squash([' '] + ReplaceDashFrom(t, dash, k), cs) == Squash(t[i..], cs)
  {
    var k := SkipSpaces(t, SkipSpaces(t, i) + 1);
    var rest := ReplaceDashFrom(t, dash, k);
    DashMatchRun(t, dash, i, cs);
    SquashRun(t, cs, i, k);
    assert t[k - 1..] == [t[k - 1]] + t[k..];
    assert ' ' in WhiteSpace;
    if k < |t| {
      ReplaceDashFromHead(t, dash, k, cs);
      assert t[k..][0] == t[k];
    }
    SquashConsAgree(' ', t[k - 1], rest, t[k..], cs);
  }

  /** The step of `ReplaceDashFromSquash` where no match starts at `i`. */
  lemma NoMatchSquash(t: string, dash: char, i: nat, cs: set<char>)
    requires i < |t| && dash !in WhiteSpace && WhiteSpace <= cs && dash in cs
    requires !(SkipSpaces(t, i) < |t| && t[SkipSpaces(t, i)] == dash)
    requires Squash(ReplaceDashFrom(t, dash, i + 1), cs) == Squash(t[i + 1..], cs)
    ensures Squash(ReplaceDashFrom(t, dash, i), cs) == Squash(t[i..], cs)
  {
    var rest := ReplaceDashFrom(t, dash, i + 1);
    assert ReplaceDashFrom(t, dash, i) == [t[i]] + rest;
    assert t[i..] == [t[i]] + t[i + 1..];
    if i + 1 < |t| {
      ReplaceDashFromHead(t, dash, i + 1, cs);
      assert t[i + 1..][0] == t[i + 1];
    }
    SquashConsAgree(t[i], t[i], rest, t[i + 1..], cs);
  }

  /**
   * Replacing `\s*D\s*` by a space leaves the text's squashed form, for any
   * class holding the whitespace and the dash, unchanged: the replacement
   * only merges runs of that class into one space.
   */
  lemma {:induction false} ReplaceDashFromSquash(t: string, dash: char, i: nat, cs: set<char>)
    requires i <= |t| && dash !in WhiteSpace && WhiteSpace <= cs && dash in cs
    ensures Squash(ReplaceDashFrom(t, dash, i), cs) == Squash(t[i..], cs)
    decreases |t| - i
  {
    if i < |t| {
      var j := SkipSpaces(t, i);
      if j < |t| && t[j] == dash {
        var k := SkipSpaces(t, j + 1);
        ReplaceDashFromSquash(t, dash, k, cs);
        assert ReplaceDashFrom(t, dash, i) == [' '] + ReplaceDashFrom(t, dash, k);
        DashMatchSquash(t, dash, i, cs);
      } else {
        ReplaceDashFromSquash(t, dash, i + 1, cs);
        NoMatchSquash(t, dash, i, cs);
      }
    }
  }

  function ReplaceDash(t: string, dash: char): (r: string)
    requires dash !in WhiteSpace
    ensures dash !in r
    ensures DrawnFrom(r, t)
    ensures Without(r, WhiteSpace + {dash}) == Without(t, WhiteSpace + {dash})
    ensures Squash(r, WhiteSpace + {dash}) == Squash(t, WhiteSpace + {dash})
  {
    assert t[0..] == t;
    ReplaceDashFromKeeps(t, dash, 0);
    ReplaceDashFromSquash(t, dash, 0, WhiteSpace + {dash});
    assert WhiteSpace <= WhiteSpace + {dash};
    ReplaceDashFrom(t, dash, 0)
  }

  /** A text without the dash comes out of its replacement unchanged. */
  lemma {:induction false} ReplaceDashFromUnchanged(t: string, dash: char, i: nat)
    requires i <= |t| && dash !in WhiteSpace && dash !in t
    ensures ReplaceDashFrom(t, dash, i) == t[i..]
    decreases |t| - i
  {
    if i < |t| {
      assert t[i..] == [t[i]] + t[i + 1..];
      ReplaceDashFromUnchanged(t, dash, i + 1);
    }
  }

  /** Only spaces stand for whitespace, and no two spaces are adjacent. */
  predicate SingleSpaced(s: string)
  {
    && (forall k :: 0 <= k < |s| && s[k] in WhiteSpace ==> s[k] == ' ')
    && (forall k :: 0 <= k < |s| - 1 ==> s[k] != ' ' || s[k + 1] != ' ')
  }

  /** The global replacement of `\s+` by one space in `t[i..]` (line 290). */
  function CollapseFrom(t: string, i: nat): (r: string)
    requires i <= |t|
    ensures SingleSpaced(r)
    ensures |r| > 0 <==> i < |t|
    ensures |r| > 0 ==> (r[0] == ' ' <==> t[i] in WhiteSpace)
    ensures DrawnFrom(r, t[i..])
    decreases |t| - i
  {
    if i == |t| then []
    else if t[i] in WhiteSpace then
      var j := SkipSpaces(t, i);
      var rest := CollapseFrom(t, j);
      assert forall c :: c in rest ==> c == ' ' || c in t[i..] by {
        forall c | c in rest && c != ' ' ensures c in t[i..] {
          var k :| j <= k < |t| && t[k] == c;
          assert t[i..][k - i] == c;
        }
      }
      [' '] + rest
    else
      var rest := CollapseFrom(t, i + 1);
      assert t[i..] == [t[i]] + t[i + 1..];
      [t[i]] + rest
  }

  /** The collapse removes only whitespace: every other character of `t[i..]` survives, in order. */
  lemma {:induction false} CollapseFromKeeps(t: string, i: nat)
    requires i <= |t|
    ensures Without(CollapseFrom(t, i), WhiteSpace) == Without(t[i..], WhiteSpace)
    decreases |t| - i
  {
    if i < |t| {
      if t[i] in WhiteSpace {
        var j := SkipSpaces(t, i);
        CollapseFromKeeps(t, j);
        WithoutCons(' ', CollapseFrom(t, j), WhiteSpace);
        WithoutSkipped(t, WhiteSpace, i, j);
      } else {
        CollapseFromKeeps(t, i + 1);
        WithoutCons(t[i], CollapseFrom(t, i + 1), WhiteSpace);
        assert t[i..] == [t[i]] + t[i + 1..];
        WithoutCons(t[i], t[i + 1..], WhiteSpace);
      }
    }
  }

  /**
   * The collapse from `i < |t|` starts with `t[i]`, or with a space for a
   * whitespace run; so it starts inside a run of any class holding the
   * whitespace exactly when `t[i..]` does.
   */
  lemma CollapseFromHead(t: string, i: nat, cs: set<char>)
    requires i < |t| && WhiteSpace <= cs
    ensures CollapseFrom(t, i) != []
    ensures CollapseFrom(t, i)[0] in cs <==> t[i] in cs
  {
    assert ' ' in WhiteSpace;
  }

  /** The step of `CollapseFromSquash` at a whitespace run starting at `i`. */
  lemma RunCollapseSquash(t: string, i: nat, cs: set<char>)
    requires i < |t| && t[i] in WhiteSpace && WhiteSpace <= cs
    requires Squash(CollapseFrom(t, SkipSpaces(t, i)), cs) == Squash(t[SkipSpaces(t, i)..], cs)
    ensures Squash(CollapseFrom(t, i), cs) == Squash(t[i..], cs)
  {
    var j := SkipSpaces(t, i);
    var rest := CollapseFrom(t, j);
    assert CollapseFrom(t, i) == [' '] + rest;
    assert forall m :: i <= m < j ==> t[m] in cs;
    SquashRun(t, cs, i, j);
    assert t[j - 1..] == [t[j - 1]] + t[j..];
    assert ' ' in WhiteSpace;
    if j < |t| {
      CollapseFromHead(t, j, cs);
      assert t[j..][0] == t[j];
    }
    SquashConsAgree(' ', t[j - 1], rest, t[j..], cs);
  }

  /** The step of `CollapseFromSquash` at a character outside the whitespace. */
  lemma CharCollapseSquash(t: string, i: nat, cs: set<char>)
    requires i < |t| && t[i] !in WhiteSpace && WhiteSpace <= cs
    requires Squash(CollapseFrom(t, i + 1), cs) == Squash(t[i + 1..], cs)
    ensures Squash(CollapseFrom(t, i), cs) == Squash(t[i..], cs)
  {
    var rest := CollapseFrom(t, i + 1);
    assert CollapseFrom(t, i) == [t[i]] + rest;
    assert t[i..] == [t[i]] + t[i + 1..];
    if i + 1 < |t| {
      CollapseFromHead(t, i + 1, cs);
      assert t[i + 1..][0] == t[i + 1];
    }
    SquashConsAgree(t[i], t[i], rest, t[i + 1..], cs);
  }

  /**
   * Collapsing whitespace runs leaves the text's squashed form, for any class
   * holding the whitespace, unchanged.
   */
  lemma {:induction false} CollapseFromSquash(t: string, i: nat, cs: set<char>)
    requires i <= |t| && WhiteSpace <= cs
    ensures Squash(CollapseFrom(t, i), cs) == Squash(t[i..], cs)
    decreases |t| - i
  {
    if i < |t| {
      if t[i] in WhiteSpace {
        CollapseFromSquash(t, SkipSpaces(t, i), cs);
        RunCollapseSquash(t, i, cs);
      } else {
        CollapseFromSquash(t, i + 1, cs);
        CharCollapseSquash(t, i, cs);
      }
    }
  }

  function Collapse(t: string): (r: string)
    ensures SingleSpaced(r)
    ensures DrawnFrom(r, t)
    ensures Without(r, WhiteSpace) == Without(t, WhiteSpace)
    ensures r == Squash(t, WhiteSpace)
  {
    assert t[0..] == t;
    CollapseFromKeeps(t, 0);
    CollapseFromSquash(t, 0, WhiteSpace);
    SquashFixed(CollapseFrom(t, 0), WhiteSpace);
    CollapseFrom(t, 0)
  }

  /** A single-spaced text comes out of the collapse unchanged. */
  lemma {:induction false} CollapseFromUnchanged(t: string, i: nat)
    requires i <= |t| && SingleSpaced(t)
    ensures CollapseFrom(t, i) == t[i..]
    decreases |t| - i
  {
    if i < |t| {
      if t[i] in WhiteSpace {
        assert t[i] == ' ';
        assert SkipSpaces(t, i) == i + 1;
      }
      assert t[i..] == [t[i]] + t[i + 1..];
      CollapseFromUnchanged(t, i + 1);
    }
  }

  /** No dash of any of the three kinds. */
  predicate Dashless(s: string)
  {
    Hyphen !in s && EmDash !in s && EnDash !in s
  }

  /** The shape every normalised completion has. */
  predicate IsNormal(s: string)
  {
    && Dashless(s)
    && SingleSpaced(s)
    && (s == [] || (s[0] != ' ' && s[|s| - 1] != ' '))
  }

  /** A substring of a dashless, single-spaced text is dashless and single-spaced. */
  lemma SubstringKeepsShape(t: string, r: string)
    requires Dashless(t) && SingleSpaced(t) && Contains(t, r)
    ensures Dashless(r) && SingleSpaced(r)
  {
    var a: nat :| a <= |t| && OccursAt(t, r, a);
    forall k | 0 <= k < |r| ensures r[k] == t[a + k] {
      OccursAtChar(t, r, a, k);
    }
    assert forall c :: c in r ==> c in t;
  }

  /** Every character of `r` occurs in a text that contains `r`. */
  lemma ContainedDrawnFrom(t: string, r: string)
    requires Contains(t, r)
    ensures DrawnFrom(r, t)
  {
    var a: nat :| a <= |t| && OccursAt(t, r, a);
    forall k | 0 <= k < |r| ensures r[k] in t {
      OccursAtChar(t, r, a, k);
    }
  }

  lemma DrawnFromTransitive(r: string, s: string, t: string)
    requires DrawnFrom(r, s) && DrawnFrom(s, t)
    ensures DrawnFrom(r, t)
  {
  }

  /**
   * The three dash replacements of lines 287-289, em dash, en dash, then
   * hyphen: no dash of any kind is left.
   */
  function RemoveDashes(t: string): (r: string)
    ensures Dashless(r)
    ensures DrawnFrom(r, t)
    ensures Kept(r) == Kept(t)
    ensures Squash(r, SpaceOrDash) == Squash(t, SpaceOrDash)
  {
    var noEm := ReplaceDash(t, EmDash);
    var noEn := ReplaceDash(noEm, EnDash);
    var noHyphen := ReplaceDash(noEn, Hyphen);
    assert t[0..] == t && noEm[0..] == noEm && noEn[0..] == noEn;
    assert WhiteSpace <= SpaceOrDash;
    ReplaceDashFromSquash(t, EmDash, 0, SpaceOrDash);
    ReplaceDashFromSquash(noEm, EnDash, 0, SpaceOrDash);
    ReplaceDashFromSquash(noEn, Hyphen, 0, SpaceOrDash);
    DrawnFromTransitive(noHyphen, noEn, noEm);
    DrawnFromTransitive(noHyphen, noEm, t);
    WithoutAgreeSuperset(noEm, t, WhiteSpace + {EmDash}, SpaceOrDash);
    WithoutAgreeSuperset(noEn, noEm, WhiteSpace + {EnDash}, SpaceOrDash);
    WithoutAgreeSuperset(noHyphen, noEn, WhiteSpace + {Hyphen}, SpaceOrDash);
    noHyphen
  }

  /**
   * The normalisation chain of app/index.tsx:284-292 applied to a completion.
   * Its output has no dash of any kind, uses only U+0020 as whitespace and
   * never two in a row, has no space at either end, and introduces no
   * character other than the space. Every character of the completion other
   * than whitespace and dashes survives, in order.
   */
  function Normalize(raw: string): (r: string)
    ensures IsNormal(r)
    ensures DrawnFrom(r, raw)
    ensures Kept(r) == Kept(raw)
  {
    var trimmed := Trim(raw);
    var dashless := RemoveDashes(trimmed);
    var collapsed := Collapse(dashless);
    var stripped := Strip(collapsed, SpaceOrDash);
    var r := Trim(stripped);
    SubstringKeepsShape(collapsed, stripped);
    SubstringKeepsShape(stripped, r);
    ContainedDrawnFrom(raw, trimmed);
    ContainedDrawnFrom(collapsed, stripped);
    ContainedDrawnFrom(stripped, r);
    DrawnFromTransitive(r, stripped, collapsed);
    DrawnFromTransitive(collapsed, dashless, trimmed);
    DrawnFromTransitive(r, collapsed, trimmed);
    DrawnFromTransitive(r, trimmed, raw);
    WithoutAgreeSuperset(trimmed, raw, WhiteSpace, SpaceOrDash);
    WithoutAgreeSuperset(collapsed, dashless, WhiteSpace, SpaceOrDash);
    WithoutAgreeSuperset(r, stripped, WhiteSpace, SpaceOrDash);
    r
  }

  /**
   * Once dashes are gone and whitespace is collapsed, the only characters of
   * `[\s\-—–]` left are single spaces.
   */
  lemma CollapsedShape(dashless: string)
    requires Dashless(dashless)
    ensures var c := Collapse(dashless);
      && (forall k :: 0 <= k < |c| && c[k] in SpaceOrDash ==> c[k] == ' ')
      && (forall k :: 0 <= k < |c| - 1 ==> c[k] !in SpaceOrDash || c[k + 1] !in SpaceOrDash)
  {
    var c := Collapse(dashless);
    forall k | 0 <= k < |c| && c[k] in SpaceOrDash
      ensures c[k] == ' '
    {
      assert c[k] in c;
    }
  }

  /**
   * After the dash replacements and the collapse, every run of whitespace and
   * dashes in the trimmed completion has become one space, and nothing else
   * has changed.
   */
  lemma CollapsedIsSquashed(trimmed: string)
    ensures Collapse(RemoveDashes(trimmed)) == Squash(trimmed, SpaceOrDash)
  {
    var dashless := RemoveDashes(trimmed);
    var collapsed := Collapse(dashless);
    assert dashless[0..] == dashless;
    assert WhiteSpace <= SpaceOrDash;
    CollapseFromSquash(dashless, 0, SpaceOrDash);
    CollapsedShape(dashless);
    SquashFixed(collapsed, SpaceOrDash);
  }

  /**
   * Once dashes are gone and whitespace is collapsed, stripping `[\s\-—–]`
   * runs and trimming both just cut the spaces at the ends.
   */
  lemma StripCollapsed(dashless: string)
    requires Dashless(dashless)
    ensures Trim(Strip(Collapse(dashless), SpaceOrDash)) == Strip(Collapse(dashless), {' '})
  {
    var collapsed := Collapse(dashless);
    var stripped := Strip(collapsed, SpaceOrDash);
    var a: nat :| CutFrom(collapsed, SpaceOrDash, a, stripped);
    CollapsedShape(dashless);
    StripUnique(collapsed, {' '}, a, stripped);
    assert WhiteSpace <= SpaceOrDash;
    StripUnchanged(stripped, WhiteSpace);
  }

  /**
   * The whole chain in one equation: every maximal run of whitespace and
   * dashes becomes one space, and a space left at either end is dropped.
   * So words stay apart, and nothing but the runs changes.
   */
  lemma NormalizeSquashStrip(raw: string)
    ensures Normalize(raw) == Strip(Squash(raw, SpaceOrDash), {' '})
  {
    var trimmed := Trim(raw);
    CollapsedIsSquashed(trimmed);
    StripCollapsed(RemoveDashes(trimmed));
    assert WhiteSpace <= SpaceOrDash;
    TrimSquashStrip(raw, SpaceOrDash);
  }

  /** A text already in normal form is left as it is. */
  lemma NormalizeFixesNormal(s: string)
    requires IsNormal(s)
    ensures Normalize(s) == s
  {
    StripUnchanged(s, WhiteSpace);
    assert s[0..] == s;
    ReplaceDashFromUnchanged(s, EmDash, 0);
    ReplaceDashFromUnchanged(s, EnDash, 0);
    ReplaceDashFromUnchanged(s, Hyphen, 0);
    assert RemoveDashes(s) == s;
    CollapseFromUnchanged(s, 0);
    StripUnchanged(s, SpaceOrDash);
    StripUnchanged(s, WhiteSpace);
  }

  /** Normalising twice is normalising once. */
  lemma NormalizeIdempotent(raw: string)
    ensures Normalize(Normalize(raw)) == Normalize(raw)
  {
    NormalizeFixesNormal(Normalize(raw));
  }
}
