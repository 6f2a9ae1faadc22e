/**
 * The substitution engine: starting from the initial SVG text, each entry of
 * the colour map, in insertion order, replaces every occurrence of its
 * original token in the text built so far with its current value.
 */
module Substitution {
  import opened Sequences
  import opened ColorMaps

  /**
   * `s.replace(new RegExp(pat, 'g'), rep)` for a pattern with no regular
   * expression metacharacters (a hex token has none) and a replacement with no
   * `$` patterns: scanning left to right, every occurrence of `pat` found
   * after the previous one is replaced by `rep`. An empty pattern matches
   * before every character and at the end.
   */
  function ReplaceAll(s: string, pat: string, rep: string): string
    decreases |s|
  {
    if pat == [] then
      if s == [] then rep else rep + [s[0]] + ReplaceAll(s[1..], pat, rep)
    else if |s| < |pat| then s
    else if s[..|pat|] == pat then rep + ReplaceAll(s[|pat|..], pat, rep)
    else [s[0]] + ReplaceAll(s[1..], pat, rep)
  }

  /**
   * The derived SVG text: the left fold of `ReplaceAll` over the entries of
   * `m` in order, starting from `base`.
   */
  function Substitute(base: string, m: ColorMap): string
    decreases |m|
  {
    if m == [] then base
    else
      var e := m[|m| - 1];
      ReplaceAll(Substitute(base, m[..|m| - 1]), e.original, e.current)
  }

  /** The `forEach` loop over `Object.entries(colorMap)` that builds the derived text. */
  method ApplyColorMap(base: string, m: ColorMap) returns (text: string)
    ensures text == Substitute(base, m)
  {
    text := base;
    for i := 0 to |m|
      invariant text == Substitute(base, m[..i])
    {
      assert m[..i + 1][..i] == m[..i];
      text := ReplaceAll(text, m[i].original, m[i].current);
    }
    assert m[..|m|] == m;
  }

  /** Replacing a token with itself leaves the text as it was. */
  lemma {:induction false} ReplaceSelf(s: string, t: string)
    ensures ReplaceAll(s, t, t) == s
    decreases |s|
  {
    if t == [] {
      if s != [] {
        ReplaceSelf(s[1..], t);
        assert s == [s[0]] + s[1..];
      }
    } else if |s| >= |t| {
      if s[..|t|] == t {
        ReplaceSelf(s[|t|..], t);
        assert s == s[..|t|] + s[|t|..];
      } else {
        ReplaceSelf(s[1..], t);
        assert s == [s[0]] + s[1..];
      }
    }
  }

  /** A non-empty token that does not occur in the text leaves it unchanged. */
  lemma {:induction false} ReplaceAbsent(s: string, pat: string, rep: string)
    requires pat != [] && forall p: nat :: !OccursAt(s, pat, p)
    ensures ReplaceAll(s, pat, rep) == s
    decreases |s|
  {
    if |s| >= |pat| {
      assert !OccursAt(s, pat, 0);
      assert s[..|pat|] == s[0..|pat|];
      forall p: nat ensures !OccursAt(s[1..], pat, p) {
        assert !OccursAt(s, pat, p + 1);
        if p + |pat| <= |s[1..]| {
          assert s[1..][p..p + |pat|] == s[p + 1..p + 1 + |pat|];
        }
      }
      ReplaceAbsent(s[1..], pat, rep);
      assert s == [s[0]] + s[1..];
    }
  }

  /**
   * Global replacement in terms of occurrences: everything before the first
   * occurrence of the token is kept, that occurrence is replaced, and the
   * replacement goes on after it. With `ReplaceAbsent` for a text with no
   * occurrence, this determines `ReplaceAll` for every non-empty token.
   */
  lemma ReplaceAtFirst(s: string, pat: string, rep: string, p: nat)
    requires pat != [] && OccursAt(s, pat, p)
    requires forall q: nat :: q < p ==> !OccursAt(s, pat, q)
    ensures ReplaceAll(s, pat, rep) == s[..p] + (rep + ReplaceAll(s[p + |pat|..], pat, rep))
  {
    SplitsAtFirst(s, pat, rep, p);
  }

  /** Replacement keeps `s[..p]`, replaces the occurrence at `p` and goes on after it. */
  predicate SplitsAt(s: string, pat: string, rep: string, p: nat)
    requires p + |pat| <= |s|
  {
    ReplaceAll(s, pat, rep) == s[..p] + (rep + ReplaceAll(s[p + |pat|..], pat, rep))
  }

  /** `ReplaceAtFirst`, by induction on the position of the first occurrence. */
  lemma {:induction false} SplitsAtFirst(s: string, pat: string, rep: string, p: nat)
    requires pat != [] && OccursAt(s, pat, p)
    requires forall q: nat :: q < p ==> !OccursAt(s, pat, q)
    ensures SplitsAt(s, pat, rep, p)
    decreases p
  {
    if p == 0 {
      ReplaceAtStart(s, pat, rep);
    } else {
      assert !OccursAt(s, pat, 0);
      FirstOccurrenceShifts(s, pat, p);
      SplitsAtFirst(s[1..], pat, rep, p - 1);
      CopiesBeforeFirst(s, pat, rep, p);
    }
  }

  /** An occurrence at position 0 is replaced, and the replacement goes on after it. */
  lemma ReplaceAtStart(s: string, pat: string, rep: string)
    requires pat != [] && OccursAt(s, pat, 0)
    ensures SplitsAt(s, pat, rep, 0)
  {
    assert s[..|pat|] == pat;
    assert s[..0] == [];
  }

  /** Dropping the first character moves the first occurrence one place to the left. */
  lemma FirstOccurrenceShifts(s: string, pat: string, p: nat)
    requires pat != [] && 0 < p && OccursAt(s, pat, p)
    requires forall q: nat :: q < p ==> !OccursAt(s, pat, q)
    ensures OccursAt(s[1..], pat, p - 1)
    ensures forall q: nat :: q < p - 1 ==> !OccursAt(s[1..], pat, q)
  {
    var t := s[1..];
    assert t[p - 1..p - 1 + |pat|] == s[p..p + |pat|];
    forall q: nat | q < p - 1 ensures !OccursAt(t, pat, q) {
      assert !OccursAt(s, pat, q + 1);
      assert t[q..q + |pat|] == s[q + 1..q + 1 + |pat|];
    }
  }

  /** Before a first occurrence at `p > 0`, the first character is copied ahead of the rest. */
  lemma CopiesBeforeFirst(s: string, pat: string, rep: string, p: nat)
    requires pat != [] && 0 < p && OccursAt(s, pat, p) && !OccursAt(s, pat, 0)
    requires SplitsAt(s[1..], pat, rep, p - 1)
    ensures SplitsAt(s, pat, rep, p)
  {
    var tail := ReplaceAll(s[p + |pat|..], pat, rep);
    assert s[1..][p - 1 + |pat|..] == s[p + |pat|..];
    CopiesFront(s, pat, rep);
    ConsSlice(s, p, rep + tail);
  }

  lemma ConsSlice(s: string, p: nat, x: string)
    requires 0 < p <= |s|
    ensures [s[0]] + (s[1..][..p - 1] + x) == s[..p] + x
  {
    assert s[..p] == [s[0]] + s[1..][..p - 1];
  }

  /** A stretch without the token's first character is copied as it is. */
  lemma {:induction false} ReplaceSkipsStretch(g: string, rest: string, pat: string, rep: string)
    requires pat != [] && pat[0] !in g
    ensures ReplaceAll(g + rest, pat, rep) == g + ReplaceAll(rest, pat, rep)
    decreases |g|
  {
    if g != [] {
      var s := g + rest;
      assert s[0] == g[0] != pat[0];
      assert s[1..] == g[1..] + rest;
      ReplaceSkipsStretch(g[1..], rest, pat, rep);
      if |s| >= |pat| {
        assert s[..|pat|][0] == g[0];
        assert ReplaceAll(s, pat, rep) == [g[0]] + ReplaceAll(s[1..], pat, rep);
        assert g == [g[0]] + g[1..];
      } else {
        assert ReplaceAll(rest, pat, rep) == rest;
      }
    } else {
      assert g + rest == rest;
    }
  }

  /** An occurrence of the token at the front is replaced, and the scan goes on after it. */
  lemma ReplacesFront(rest: string, pat: string, rep: string)
    requires pat != []
    ensures ReplaceAll(pat + rest, pat, rep) == rep + ReplaceAll(rest, pat, rep)
  {
    assert (pat + rest)[..|pat|] == pat && (pat + rest)[|pat|..] == rest;
  }

  /**
   * A different token of the same length that starts like the pattern (with
   * `#`) and has no other `#` is copied as it is: no occurrence of the
   * pattern starts inside it.
   */
  lemma PassesOtherToken(t: string, rest: string, pat: string, rep: string)
    requires |t| == |pat| > 0 && t != pat && t[0] == pat[0] && pat[0] !in t[1..]
    ensures ReplaceAll(t + rest, pat, rep) == t + ReplaceAll(rest, pat, rep)
  {
    var tail := ReplaceAll(rest, pat, rep);
    CopiesFrontOfOther(t, rest, pat, rep);
    ReplaceSkipsStretch(t[1..], rest, pat, rep);
    ConsConcat(t, tail);
  }

  lemma ConsConcat(t: string, x: string)
    requires t != []
    ensures [t[0]] + (t[1..] + x) == t + x
  {
    assert t == [t[0]] + t[1..];
  }

  /** Where the pattern does not start, the first character is copied and the scan moves one on. */
  lemma CopiesFront(s: string, pat: string, rep: string)
    requires pat != [] && |pat| <= |s| && s[..|pat|] != pat
    ensures ReplaceAll(s, pat, rep) == [s[0]] + ReplaceAll(s[1..], pat, rep)
  {
  }

  /** A different token as long as the pattern at the front: its first character is copied. */
  lemma CopiesFrontOfOther(t: string, rest: string, pat: string, rep: string)
    requires |t| == |pat| > 0 && t != pat
    ensures ReplaceAll(t + rest, pat, rep) == [t[0]] + ReplaceAll(t[1..] + rest, pat, rep)
  {
    var s := t + rest;
    assert s[..|pat|] == t;
    assert s[0] == t[0] && s[1..] == t[1..] + rest;
    CopiesFront(s, pat, rep);
  }

  /** Nothing is left to scan. */
  lemma ReplaceEmpty(pat: string, rep: string)
    requires pat != []
    ensures ReplaceAll([], pat, rep) == []
  {
  }

  /** When every colour maps to itself, the derived text is the initial text. */
  lemma {:induction false} SubstituteIdentity(base: string, m: ColorMap)
    requires IsIdentity(m)
    ensures Substitute(base, m) == base
    decreases |m|
  {
    if m != [] {
      var e := m[|m| - 1];
      SubstituteIdentity(base, m[..|m| - 1]);
      assert e.current == e.original;
      ReplaceSelf(base, e.original);
    }
  }

  /** Applying two maps one after the other is applying their concatenation: the fold is sequential. */
  lemma {:induction false} SubstituteConcat(base: string, m1: ColorMap, m2: ColorMap)
    ensures Substitute(base, m1 + m2) == Substitute(Substitute(base, m1), m2)
    decreases |m2|
  {
    if m2 == [] {
      assert m1 + m2 == m1;
    } else {
      var n := |m2| - 1;
      assert (m1 + m2)[..|m1 + m2| - 1] == m1 + m2[..n];
      assert (m1 + m2)[|m1 + m2| - 1] == m2[n];
      SubstituteConcat(base, m1, m2[..n]);
    }
  }

  /** An entry that maps a colour to itself has no effect, wherever it stands in the map. */
  lemma SubstituteSkipsSelfEntry(base: string, m1: ColorMap, c: string, m2: ColorMap)
    ensures Substitute(base, m1 + [Entry(c, c)] + m2) == Substitute(base, m1 + m2)
  {
    SubstituteConcat(base, m1 + [Entry(c, c)], m2);
    SubstituteConcat(base, m1, m2);
    assert (m1 + [Entry(c, c)])[..|m1|] == m1;
    ReplaceSelf(Substitute(base, m1), c);
  }
}
