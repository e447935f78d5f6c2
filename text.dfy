/**
 * Character classes and string primitives the translator screen borrows
 * from JavaScript: the whitespace class `\s` (also what `String.prototype.trim`
 * removes), the ASCII word characters behind `\b`, `String.prototype.includes`
 * and the decimal rendering of a number in a template literal.
 * Strings are sequences of code points; JavaScript's UTF-16 code units are
 * not modelled.
 */
module Text {

  /** JavaScript's WhiteSpace and LineTerminator code points: the class `\s`. */
  const WhiteSpace: set<char> := {
    '\t', '\n', '\U{000B}', '\U{000C}', '\r', ' ', '\U{00A0}', '\U{1680}',
    '\U{2000}', '\U{2001}', '\U{2002}', '\U{2003}', '\U{2004}', '\U{2005}',
    '\U{2006}', '\U{2007}', '\U{2008}', '\U{2009}', '\U{200A}',
    '\U{2028}', '\U{2029}', '\U{202F}', '\U{205F}', '\U{3000}', '\U{FEFF}'
  }

  /** The characters `\w` matches; `\b` sits between a word and a non-word character. */
  predicate IsWordChar(c: char)
  {
    'A' <= c <= 'Z' || 'a' <= c <= 'z' || '0' <= c <= '9' || c == '_'
  }

  /** No character of `s` is an ASCII word character. */
  predicate NoWordChars(s: string)
  {
    forall k :: 0 <= k < |s| ==> !IsWordChar(s[k])
  }

  /** Every character of `s` is an ASCII word character. */
  predicate AllWordChars(s: string)
  {
    forall k :: 0 <= k < |s| ==> IsWordChar(s[k])
  }

  // ---------------------------------------------------------------------------
  // The characters outside a class
  // ---------------------------------------------------------------------------

  /** The characters of `s` that are not in `cs`, in order. */
  function Without(s: string, cs: set<char>): string
  {
    if s == [] then [] else (if s[0] in cs then [] else [s[0]]) + Without(s[1..], cs)
  }

  lemma WithoutCons(c: char, s: string, cs: set<char>)
    ensures Without([c] + s, cs) == (if c in cs then [] else [c]) + Without(s, cs)
  {
    assert ([c] + s)[1..] == s;
  }

  lemma {:induction false} WithoutConcat(a: string, b: string, cs: set<char>)
    ensures Without(a + b, cs) == Without(a, cs) + Without(b, cs)
    decreases |a|
  {
    if a == [] {
      assert a + b == b;
    } else {
      assert a + b == [a[0]] + (a[1..] + b);
      WithoutCons(a[0], a[1..] + b, cs);
      WithoutConcat(a[1..], b, cs);
    }
  }

  lemma {:induction false} WithoutAllIn(s: string, cs: set<char>)
    requires forall k :: 0 <= k < |s| ==> s[k] in cs
    ensures Without(s, cs) == []
    decreases |s|
  {
    if s != [] {
      assert forall k :: 0 <= k < |s[1..]| ==> s[1..][k] == s[k + 1];
      WithoutAllIn(s[1..], cs);
    }
  }

  /** Skipping a run of characters of `cs` does not change what lies outside `cs`. */
  lemma WithoutSkipped(t: string, cs: set<char>, i: nat, k: nat)
    requires i <= k <= |t|
    requires forall m :: i <= m < k ==> t[m] in cs
    ensures Without(t[i..], cs) == Without(t[k..], cs)
  {
    assert t[i..] == t[i..k] + t[k..];
    WithoutConcat(t[i..k], t[k..], cs);
    assert forall m :: 0 <= m < k - i ==> t[i..k][m] == t[i + m];
    WithoutAllIn(t[i..k], cs);
  }

  /** Removing the characters of `a` first changes nothing when `b` includes them. */
  lemma {:induction false} WithoutTwice(s: string, a: set<char>, b: set<char>)
    requires a <= b
    ensures Without(Without(s, a), b) == Without(s, b)
    decreases |s|
  {
    if s != [] {
      WithoutTwice(s[1..], a, b);
      var head := if s[0] in a then [] else [s[0]];
      WithoutConcat(head, Without(s[1..], a), b);
      if s[0] !in a {
        WithoutCons(s[0], [], b);
      }
    }
  }

  /** Texts that agree outside `a` agree outside any larger class. */
  lemma WithoutAgreeSuperset(x: string, y: string, a: set<char>, b: set<char>)
    requires a <= b && Without(x, a) == Without(y, a)
    ensures Without(x, b) == Without(y, b)
  {
    WithoutTwice(x, a, b);
    WithoutTwice(y, a, b);
  }

  // ---------------------------------------------------------------------------
  // Stripping a run of characters from both ends
  // ---------------------------------------------------------------------------

  /** The index of the first character of `t` at or after `i` that is not in `cs`. */
  function SkipFrom(t: string, cs: set<char>, i: nat): (a: nat)
    requires i <= |t|
    ensures i <= a <= |t|
    ensures forall k :: i <= k < a ==> t[k] in cs
    ensures a < |t| ==> t[a] !in cs
    decreases |t| - i
  {
    if i < |t| && t[i] in cs then SkipFrom(t, cs, i + 1) else i
  }

  /** The index just past the last character of `t[a..b]` that is not in `cs` (or `a`). */
  function SkipBackFrom(t: string, cs: set<char>, a: nat, b: nat): (e: nat)
    requires a <= b <= |t|
    ensures a <= e <= b
    ensures forall k :: e <= k < b ==> t[k] in cs
    ensures e > a ==> t[e - 1] !in cs
    decreases b - a
  {
    if a < b && t[b - 1] in cs then SkipBackFrom(t, cs, a, b - 1) else b
  }

  /**
   * `r` is what is left of `t` once a prefix of `a` characters and a suffix,
   * both made of characters of `cs`, are cut off.
   */
  predicate CutFrom(t: string, cs: set<char>, a: nat, r: string)
  {
    && OccursAt(t, r, a)
    && (forall k :: 0 <= k < a ==> t[k] in cs)
    && (forall k :: a + |r| <= k < |t| ==> t[k] in cs)
  }

  /**
   * `t` without its longest prefix and longest suffix made of characters of
   * `cs`: both `trim` and the global replacement of `^[...]+|[...]+$` by "".
   * Only characters of `cs` are removed, only at the ends, and the result
   * neither starts nor ends with one (so the cut runs are the longest).
   */
  function Strip(t: string, cs: set<char>): (r: string)
    ensures exists a: nat :: CutFrom(t, cs, a, r)
    ensures r == [] || (r[0] !in cs && r[|r| - 1] !in cs)
    ensures forall k :: 0 <= k < |t| && t[k] !in cs ==> r != []
    ensures Contains(t, r)
    ensures Without(r, cs) == Without(t, cs)
  {
    var a := SkipFrom(t, cs, 0);
    var e := SkipBackFrom(t, cs, a, |t|);
    assert OccursAt(t, t[a..e], a);
    assert CutFrom(t, cs, a, t[a..e]);
    CutKeepsOthers(t, cs, a, t[a..e]);
    t[a..e]
  }

  lemma StripUnchanged(t: string, cs: set<char>)
    requires t == [] || (t[0] !in cs && t[|t| - 1] !in cs)
    ensures Strip(t, cs) == t
  {
    assert t[0..|t|] == t;
  }

  /** A cut splits `t` into the cut prefix, `r` and the cut suffix. */
  lemma CutPieces(t: string, cs: set<char>, a: nat, r: string) returns (pre: string, post: string)
    requires CutFrom(t, cs, a, r)
    ensures t == pre + r + post
    ensures forall k :: 0 <= k < |pre| ==> pre[k] in cs
    ensures forall k :: 0 <= k < |post| ==> post[k] in cs
  {
    pre, post := t[..a], t[a + |r|..];
    assert forall k :: 0 <= k < |post| ==> post[k] == t[a + |r| + k];
  }

  /** Cutting off runs of characters of `cs` keeps every other character, in order. */
  lemma CutKeepsOthers(t: string, cs: set<char>, a: nat, r: string)
    requires CutFrom(t, cs, a, r)
    ensures Without(r, cs) == Without(t, cs)
  {
    var e := a + |r|;
    assert t == t[..a] + r + t[e..];
    WithoutConcat(t[..a] + r, t[e..], cs);
    WithoutConcat(t[..a], r, cs);
    WithoutAllIn(t[..a], cs);
    assert forall k :: 0 <= k < |t[e..]| ==> t[e..][k] == t[e + k];
    WithoutAllIn(t[e..], cs);
  }

  /** `String.prototype.trim`. */
  function Trim(t: string): (r: string)
    ensures exists a: nat :: CutFrom(t, WhiteSpace, a, r)
    ensures r == [] || (r[0] !in WhiteSpace && r[|r| - 1] !in WhiteSpace)
    ensures r == [] <==> forall c :: c in t ==> c in WhiteSpace
    ensures Contains(t, r)
    ensures Without(r, WhiteSpace) == Without(t, WhiteSpace)
  {
    Strip(t, WhiteSpace)
  }

  /** Trimming twice is trimming once. */
  lemma TrimIdempotent(t: string)
    ensures Trim(Trim(t)) == Trim(t)
  {
    StripUnchanged(Trim(t), WhiteSpace);
  }

  /** `SkipFrom` stops at the first character outside `cs`. */
  lemma {:induction false} SkipFromFirst(t: string, cs: set<char>, i: nat, a: nat)
    requires i <= a <= |t|
    requires forall k :: i <= k < a ==> t[k] in cs
    requires a < |t| ==> t[a] !in cs
    ensures SkipFrom(t, cs, i) == a
    decreases a - i
  {
    if i < a {
      SkipFromFirst(t, cs, i + 1, a);
    }
  }

  /** `SkipBackFrom` stops just past the last character outside `cs`. */
  lemma {:induction false} SkipBackFromLast(t: string, cs: set<char>, a: nat, b: nat, e: nat)
    requires a <= e <= b <= |t|
    requires forall k :: e <= k < b ==> t[k] in cs
    requires e > a ==> t[e - 1] !in cs
    ensures SkipBackFrom(t, cs, a, b) == e
    decreases b - a
  {
    if e < b {
      SkipBackFromLast(t, cs, a, b - 1, e);
    }
  }

  /** The only cut of `t` that leaves no character of `cs` at either end is `Strip(t, cs)`. */
  lemma StripUnique(t: string, cs: set<char>, a: nat, r: string)
    requires CutFrom(t, cs, a, r)
    requires r == [] || (r[0] !in cs && r[|r| - 1] !in cs)
    ensures Strip(t, cs) == r
  {
    if r == [] {
      SkipFromFirst(t, cs, 0, |t|);
    } else {
      OccursAtChar(t, r, a, 0);
      OccursAtChar(t, r, a, |r| - 1);
      SkipFromFirst(t, cs, 0, a);
      SkipBackFromLast(t, cs, a, |t|, a + |r|);
    }
  }

  /** A character of `cs` in front of `z` is stripped away with the rest of the run. */
  lemma StripPadLeft(c: char, z: string, cs: set<char>)
    requires c in cs
    ensures Strip([c] + z, cs) == Strip(z, cs)
  {
    var r := Strip(z, cs);
    var a: nat :| CutFrom(z, cs, a, r);
    var t := [c] + z;
    assert t[a + 1..a + 1 + |r|] == z[a..a + |r|];
    forall k | 0 <= k < a + 1 ensures t[k] in cs {
      if 0 < k {
        assert t[k] == z[k - 1];
      }
    }
    forall k | a + 1 + |r| <= k < |t| ensures t[k] in cs {
      assert t[k] == z[k - 1];
    }
    StripUnique(t, cs, a + 1, r);
  }

  /** A character of `cs` after `z` is stripped away with the rest of the run. */
  lemma StripPadRight(z: string, c: char, cs: set<char>)
    requires c in cs
    ensures Strip(z + [c], cs) == Strip(z, cs)
  {
    var r := Strip(z, cs);
    var a: nat :| CutFrom(z, cs, a, r);
    var t := z + [c];
    assert t[a..a + |r|] == z[a..a + |r|];
    forall k | a + |r| <= k < |t| ensures t[k] in cs {
      if k < |z| {
        assert t[k] == z[k];
      }
    }
    StripUnique(t, cs, a, r);
  }

  // ---------------------------------------------------------------------------
  // Replacing each run of a class by one space
  // ---------------------------------------------------------------------------

  /**
   * What the character `c`, followed by `rest`, contributes once every
   * maximal run of characters of `cs` becomes one space: a character outside
   * `cs` stays, the last character of a run becomes the space, the others
   * of the run vanish.
   */
  function SquashHead(c: char, rest: string, cs: set<char>): string
  {
    if c !in cs then [c]
    else if rest != [] && rest[0] in cs then []
    else [' ']
  }

  /** `s` with every maximal run of characters of `cs` replaced by one space. */
  function Squash(s: string, cs: set<char>): string
  {
    if s == [] then [] else SquashHead(s[0], s[1..], cs) + Squash(s[1..], cs)
  }

  lemma SquashCons(c: char, s: string, cs: set<char>)
    ensures Squash([c] + s, cs) == SquashHead(c, s, cs) + Squash(s, cs)
  {
    assert ([c] + s)[1..] == s;
  }

  /**
   * Two texts squash alike after one more character each when the
   * characters agree on `cs` (and are equal outside it) and the texts
   * squash alike and agree on whether they start inside a run.
   */
  lemma SquashConsAgree(c: char, d: char, x: string, y: string, cs: set<char>)
    requires (c in cs <==> d in cs) && (c !in cs ==> c == d)
    requires (x == [] <==> y == []) && (x != [] ==> (x[0] in cs <==> y[0] in cs))
    requires Squash(x, cs) == Squash(y, cs)
    ensures Squash([c] + x, cs) == Squash([d] + y, cs)
  {
    SquashCons(c, x, cs);
    SquashCons(d, y, cs);
  }

  /** Inside a run only its last character contributes. */
  lemma {:induction false} SquashRun(t: string, cs: set<char>, i: nat, k: nat)
    requires i < k <= |t|
    requires forall m :: i <= m < k ==> t[m] in cs
    ensures Squash(t[i..], cs) == Squash(t[k - 1..], cs)
    decreases k - i
  {
    if i < k - 1 {
      assert t[i..] == [t[i]] + t[i + 1..];
      SquashCons(t[i], t[i + 1..], cs);
      SquashRun(t, cs, i + 1, k);
    }
  }

  /** A text made of one run becomes a single space. */
  lemma {:induction false} SquashAllIn(s: string, cs: set<char>)
    requires s != [] && forall k :: 0 <= k < |s| ==> s[k] in cs
    ensures Squash(s, cs) == [' ']
    decreases |s|
  {
    if 1 < |s| {
      SquashAllIn(s[1..], cs);
    }
  }

  /**
   * A text whose characters of `cs` are isolated spaces is its own
   * squashed form.
   */
  lemma {:induction false} SquashFixed(s: string, cs: set<char>)
    requires forall k :: 0 <= k < |s| && s[k] in cs ==> s[k] == ' '
    requires forall k :: 0 <= k < |s| - 1 ==> s[k] !in cs || s[k + 1] !in cs
    ensures Squash(s, cs) == s
    decreases |s|
  {
    if s != [] {
      SquashFixed(s[1..], cs);
      assert s == [s[0]] + s[1..];
    }
  }

  /** `SquashSpaceEnd` for a one-character text. */
  lemma SquashCharSpace(c: char, cs: set<char>)
    requires ' ' in cs
    ensures Squash([c, ' '], cs) == Squash([c], cs) + (if c in cs then [] else [' '])
  {
    assert [c, ' '] == [c] + [' '];
    SquashCons(c, [' '], cs);
    SquashCons(c, [], cs);
    SquashAllIn([' '], cs);
  }

  /** A space appended to `s` adds a space unless `s` already ends in a run. */
  lemma {:induction false} SquashSpaceEnd(s: string, cs: set<char>)
    requires ' ' in cs
    ensures Squash(s + [' '], cs) == Squash(s, cs) + (if s != [] && s[|s| - 1] in cs then [] else [' '])
    decreases |s|
  {
    if s == [] {
      assert s + [' '] == [' '];
      SquashAllIn([' '], cs);
    } else if |s| == 1 {
      assert s == [s[0]] && s + [' '] == [s[0], ' '];
      SquashCharSpace(s[0], cs);
    } else {
      var rest := s[1..];
      assert s + [' '] == [s[0]] + (rest + [' ']);
      assert s == [s[0]] + rest;
      assert (rest + [' '])[0] == rest[0];
      assert rest[|rest| - 1] == s[|s| - 1];
      SquashCons(s[0], rest + [' '], cs);
      SquashCons(s[0], rest, cs);
      SquashSpaceEnd(rest, cs);
    }
  }

  /** A run at the end of a text squashes like a single space there. */
  lemma {:induction false} SquashPadRight(s: string, run: string, cs: set<char>)
    requires ' ' in cs && run != [] && forall k :: 0 <= k < |run| ==> run[k] in cs
    ensures Squash(s + run, cs) == Squash(s + [' '], cs)
    decreases |s|
  {
    if s == [] {
      assert s + run == run && s + [' '] == [' '];
      SquashAllIn(run, cs);
      SquashAllIn([' '], cs);
    } else {
      assert s + run == [s[0]] + (s[1..] + run);
      assert s + [' '] == [s[0]] + (s[1..] + [' ']);
      SquashCons(s[0], s[1..] + run, cs);
      SquashCons(s[0], s[1..] + [' '], cs);
      SquashPadRight(s[1..], run, cs);
      if s[1..] != [] {
        assert (s[1..] + run)[0] == s[1] == (s[1..] + [' '])[0];
      }
    }
  }

  /** A run at the start of a text squashes like a single space there. */
  lemma SquashPadLeft(run: string, s: string, cs: set<char>)
    requires ' ' in cs && run != [] && forall k :: 0 <= k < |run| ==> run[k] in cs
    ensures Squash(run + s, cs) == Squash([' '] + s, cs)
  {
    var t := run + s;
    assert t[0..] == t;
    SquashRun(t, cs, 0, |run|);
    assert t[|run| - 1..] == [run[|run| - 1]] + s;
    SquashCons(run[|run| - 1], s, cs);
    SquashCons(' ', s, cs);
  }

  /** A run of `cs` after `s` makes no difference once spaces are stripped. */
  lemma StripSquashPadRight(s: string, post: string, cs: set<char>)
    requires ' ' in cs
    requires forall k :: 0 <= k < |post| ==> post[k] in cs
    ensures Strip(Squash(s + post, cs), {' '}) == Strip(Squash(s, cs), {' '})
  {
    if post == [] {
      assert s + post == s;
    } else {
      var x := Squash(s, cs);
      SquashPadRight(s, post, cs);
      SquashSpaceEnd(s, cs);
      if s != [] && s[|s| - 1] in cs {
        assert Squash(s + post, cs) == x;
      } else {
        assert Squash(s + post, cs) == x + [' '];
        StripPadRight(x, ' ', {' '});
      }
    }
  }

  /** A run of `cs` before `s` makes no difference once spaces are stripped. */
  lemma StripSquashPadLeft(pre: string, s: string, cs: set<char>)
    requires ' ' in cs
    requires forall k :: 0 <= k < |pre| ==> pre[k] in cs
    ensures Strip(Squash(pre + s, cs), {' '}) == Strip(Squash(s, cs), {' '})
  {
    if pre == [] {
      assert pre + s == s;
    } else {
      var x := Squash(s, cs);
      SquashPadLeft(pre, s, cs);
      SquashCons(' ', s, cs);
      if s != [] && s[0] in cs {
        assert Squash(pre + s, cs) == x;
      } else {
        assert Squash(pre + s, cs) == [' '] + x;
        StripPadLeft(' ', x, {' '});
      }
    }
  }

  /**
   * Runs of `cs` around `m` make no difference once the squashed text is
   * stripped of spaces at both ends.
   */
  lemma StripSquashPadded(pre: string, m: string, post: string, cs: set<char>)
    requires ' ' in cs
    requires forall k :: 0 <= k < |pre| ==> pre[k] in cs
    requires forall k :: 0 <= k < |post| ==> post[k] in cs
    ensures Strip(Squash(pre + m + post, cs), {' '}) == Strip(Squash(m, cs), {' '})
  {
    StripSquashPadRight(pre + m, post, cs);
    StripSquashPadLeft(pre, m, cs);
  }

  /**
   * Trimming first makes no difference to the stripped, squashed text when
   * `cs` holds the whitespace.
   */
  lemma TrimSquashStrip(t: string, cs: set<char>)
    requires WhiteSpace <= cs
    ensures Strip(Squash(Trim(t), cs), {' '}) == Strip(Squash(t, cs), {' '})
  {
    var m := Trim(t);
    var b: nat :| CutFrom(t, WhiteSpace, b, m);
    var pre, post := CutPieces(t, WhiteSpace, b, m);
    assert ' ' in WhiteSpace;
    StripSquashPadded(pre, m, post, cs);
  }

  // ---------------------------------------------------------------------------
  // String.prototype.includes
  // ---------------------------------------------------------------------------

  predicate OccursAt(s: string, sub: string, i: nat)
  {
    i + |sub| <= |s| && s[i..i + |sub|] == sub
  }

  /** `s.includes(sub)`: case-sensitive substring test. */
  predicate Contains(s: string, sub: string)
  {
    exists i: nat | i <= |s| :: OccursAt(s, sub, i)
  }

  lemma ContainsItself(s: string)
    ensures Contains(s, s)
  {
    assert OccursAt(s, s, 0);
  }

  lemma ContainsInLeft(a: string, b: string, sub: string)
    requires Contains(a, sub)
    ensures Contains(a + b, sub)
  {
    var i: nat :| i <= |a| && OccursAt(a, sub, i);
    assert (a + b)[i..i + |sub|] == a[i..i + |sub|];
    assert OccursAt(a + b, sub, i);
  }

  lemma ContainsInRight(a: string, b: string, sub: string)
    requires Contains(b, sub)
    ensures Contains(a + b, sub)
  {
    var i: nat :| i <= |b| && OccursAt(b, sub, i);
    assert (a + b)[|a| + i..|a| + i + |sub|] == b[i..i + |sub|];
    assert OccursAt(a + b, sub, |a| + i);
  }

  lemma OccursAtChar(s: string, sub: string, i: nat, k: nat)
    requires OccursAt(s, sub, i) && k < |sub|
    ensures s[i + k] == sub[k]
  {
    assert s[i..i + |sub|][k] == s[i + k];
  }

  /** A string lacking one of the characters of `sub` does not contain it. */
  lemma MissingCharNotContained(s: string, sub: string, c: char)
    requires c in sub && c !in s
    ensures !Contains(s, sub)
  {
  }

  /** No character of `s` belongs to `cs`. */
  predicate Avoids(s: string, cs: set<char>)
  {
    forall k :: 0 <= k < |s| ==> s[k] !in cs
  }

  lemma AvoidsConcat(a: string, b: string, cs: set<char>)
    requires Avoids(a, cs) && Avoids(b, cs)
    ensures Avoids(a + b, cs)
  {
    forall k | 0 <= k < |a + b| ensures (a + b)[k] !in cs {
      if k < |a| {
        assert (a + b)[k] == a[k];
      } else {
        assert (a + b)[k] == b[k - |a|];
      }
    }
  }

  /** A string shorter than `sub` does not contain it. */
  lemma ShorterNotContained(s: string, sub: string)
    requires |s| < |sub|
    ensures !Contains(s, sub)
  {
  }

  /**
   * An occurrence of `sub` in `a + b`, where `b` begins with a character
   * `sub` lacks, lies inside `a` or inside `b`.
   */
  lemma ContainsAcrossSeparator(a: string, b: string, sub: string)
    requires |b| > 0 && b[0] !in sub
    requires Contains(a + b, sub)
    ensures Contains(a, sub) || Contains(b, sub)
  {
    var i: nat :| i <= |a + b| && OccursAt(a + b, sub, i);
    if i + |sub| <= |a| {
      assert a[i..i + |sub|] == (a + b)[i..i + |sub|];
      assert OccursAt(a, sub, i);
    } else if i >= |a| {
      assert b[i - |a|..i - |a| + |sub|] == (a + b)[i..i + |sub|];
      assert OccursAt(b, sub, i - |a|);
    } else {
      OccursAtChar(a + b, sub, i, |a| - i);
      assert false;
    }
  }

  /** The contrapositive of `ContainsAcrossSeparator`. */
  lemma NotContainedEitherSide(a: string, b: string, sub: string)
    requires |b| > 0 && b[0] !in sub
    requires !Contains(a, sub) && !Contains(b, sub)
    ensures !Contains(a + b, sub)
  {
    if Contains(a + b, sub) {
      ContainsAcrossSeparator(a, b, sub);
    }
  }

  /** An occurrence of `sub` in `a + b` cannot start in `a` when `a` lacks the first character of `sub`. */
  lemma NotContainedPastPrefix(a: string, b: string, sub: string)
    requires 0 < |sub| && Avoids(a, {sub[0]})
    requires !Contains(b, sub)
    ensures !Contains(a + b, sub)
  {
    if i: nat :| i <= |a + b| && OccursAt(a + b, sub, i) {
      OccursAtChar(a + b, sub, i, 0);
      if i < |a| {
        assert false;
      }
      assert b[i - |a|..i - |a| + |sub|] == (a + b)[i..i + |sub|];
      assert OccursAt(b, sub, i - |a|);
      assert false;
    }
  }

  /** A string whose first character of `sub` appears only too late to start it does not contain it. */
  lemma OnlyLateStarts(s: string, sub: string)
    requires 0 < |sub|
    requires forall k :: 0 <= k < |s| - |sub| + 1 ==> s[k] != sub[0]
    ensures !Contains(s, sub)
  {
    if i: nat :| i <= |s| && OccursAt(s, sub, i) {
      OccursAtChar(s, sub, i, 0);
      assert false;
    }
  }

  /** Whatever contains `sub` contains every prefix of it. */
  lemma ContainsPrefix(s: string, sub: string, n: nat)
    requires n <= |sub| && Contains(s, sub)
    ensures Contains(s, sub[..n])
  {
    var i: nat :| i <= |s| && OccursAt(s, sub, i);
    assert s[i..i + n] == sub[..n];
    assert OccursAt(s, sub[..n], i);
  }

  // ---------------------------------------------------------------------------
  // Numbers in template literals
  // ---------------------------------------------------------------------------

  function DigitChar(d: nat): (c: char)
    requires d < 10
    ensures '0' <= c <= '9'
    ensures c as int - '0' as int == d
  {
    ('0' as int + d) as char
  }

  predicate AllDigits(s: string)
  {
    forall k :: 0 <= k < |s| ==> '0' <= s[k] <= '9'
  }

  /** The number a string of decimal digits denotes, most significant digit first. */
  function DigitsValue(s: string): nat
    requires AllDigits(s)
  {
    if s == [] then 0 else DigitsValue(s[..|s| - 1]) * 10 + (s[|s| - 1] as int - '0' as int)
  }

  /**
   * The decimal numeral of `n`, as `${n}` renders it: digits only, denoting
   * `n`, without a leading zero.
   */
  function Decimal(n: nat): (r: string)
    ensures |r| > 0
    ensures forall c :: c in r ==> '0' <= c <= '9'
    ensures AllDigits(r) && DigitsValue(r) == n
    ensures |r| > 1 ==> r[0] != '0'
    decreases n
  {
    if n < 10 then
      var r := [DigitChar(n)];
      assert r[..0] == [];
      r
    else
      var high := Decimal(n / 10);
      var r := high + [DigitChar(n % 10)];
      assert r[..|r| - 1] == high;
      assert high[..0] == [];
      r
  }

  /** A numeral avoids every set of non-digits. */
  lemma DecimalAvoids(n: nat, cs: set<char>)
    requires forall c :: c in cs ==> !('0' <= c <= '9')
    ensures Avoids(Decimal(n), cs)
  {
    var d := Decimal(n);
    forall k | 0 <= k < |d| ensures d[k] !in cs {
      assert d[k] in d;
    }
  }
}
