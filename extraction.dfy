/**
 * Colour extraction: the global match of `/#[0-9a-fA-F]{6}|#[0-9a-fA-F]{3}/g`
 * over the initial SVG text, followed by first-seen deduplication. This is the
 * 3- and 6-digit hex notation of section 5.2 of CSS Color Module Level 4.
 */
module ColorExtraction {
  import opened Sequences

  predicate IsHexDigit(c: char) {
    '0' <= c <= '9' || 'a' <= c <= 'f' || 'A' <= c <= 'F'
  }

  /** `n` hex digits stand in `s` from position `i` on. */
  predicate HexDigitsAt(s: string, i: nat, n: nat) {
    i + n <= |s| && forall k :: i <= k < i + n ==> IsHexDigit(s[k])
  }

  /** A token of the form `#` plus 3 or 6 hex digits. */
  predicate IsHexColor(t: string) {
    (|t| == 4 || |t| == 7) && t[0] == '#' && forall k :: 1 <= k < |t| ==> IsHexDigit(t[k])
  }

  /**
   * The length of the match that the regular expression finds when it is
   * tried at position `i`, or 0. The first alternative (six digits) is tried
   * before the second, and nothing is asked of the character that follows.
   */
  function MatchLength(s: string, i: nat): (n: nat)
    ensures n == 7 <==> i < |s| && s[i] == '#' && HexDigitsAt(s, i + 1, 6)
    ensures n == 4 <==> i < |s| && s[i] == '#' && !HexDigitsAt(s, i + 1, 6) && HexDigitsAt(s, i + 1, 3)
    ensures n == 0 || n == 4 || n == 7
  {
    if i < |s| && s[i] == '#' then
      if HexDigitsAt(s, i + 1, 6) then 7
      else if HexDigitsAt(s, i + 1, 3) then 4
      else 0
    else 0
  }

  /**
   * The match at `i` in terms of the two alternatives: a 6-digit token when
   * one stands there, else a 3-digit token when one stands there, else none.
   */
  lemma MatchLengthIsToken(s: string, i: nat)
    ensures MatchLength(s, i) == 7 <==> i + 7 <= |s| && IsHexColor(s[i..i + 7])
    ensures MatchLength(s, i) == 4 <==>
      i + 4 <= |s| && IsHexColor(s[i..i + 4]) && !(i + 7 <= |s| && IsHexColor(s[i..i + 7]))
    ensures MatchLength(s, i) == 0 <==> !(i + 4 <= |s| && IsHexColor(s[i..i + 4]))
  {
    if i + 4 <= |s| {
      HexColorAt(s, i, 4);
    }
    if i + 7 <= |s| {
      HexColorAt(s, i, 7);
    }
  }

  /** A slice is a hex token exactly when `#` and its digits stand at its place in the text. */
  lemma HexColorAt(s: string, i: nat, n: nat)
    requires (n == 4 || n == 7) && i + n <= |s|
    ensures IsHexColor(s[i..i + n]) <==> s[i] == '#' && HexDigitsAt(s, i + 1, n - 1)
  {
    var t := s[i..i + n];
    assert t[0] == s[i];
    forall k | 1 <= k < n ensures t[k] == s[i + k] {
    }
    if s[i] == '#' && HexDigitsAt(s, i + 1, n - 1) {
      forall k | 1 <= k < n ensures IsHexDigit(t[k]) {
        assert s[i + k] == t[k];
      }
    }
    if IsHexColor(t) {
      forall k | i + 1 <= k < i + n ensures IsHexDigit(s[k]) {
        assert s[k] == t[k - i];
      }
    }
  }

  /** A match found at `start`, `len` characters long. */
  datatype Span = Span(start: nat, len: nat)

  /**
   * The global scan from position `i`: at each position try a match; on
   * success record it and continue after it, otherwise move one character on.
   */
  function ScanFrom(s: string, i: nat): (r: seq<Span>)
    decreases |s| - i
    ensures forall k :: 0 <= k < |r| ==> i <= r[k].start && r[k].start + r[k].len <= |s|
  {
    if i >= |s| then []
    else
      var n := MatchLength(s, i);
      if n > 0 then [Span(i, n)] + ScanFrom(s, i + n) else ScanFrom(s, i + 1)
  }

  /** No match starts at any position in `[a, b)`. */
  predicate NoMatchIn(s: string, a: nat, b: nat) {
    forall p :: a <= p < b ==> MatchLength(s, p) == 0
  }

  /**
   * `sp` is the leftmost, non-overlapping sequence of matches in `s` from
   * `from` on: the first span is a match that starts at or after `from` with
   * no match starting in between, the rest is the same from the end of that
   * match, and when no span is left no match starts up to the end of `s`.
   */
  ghost predicate IsLeftmostScan(s: string, from: nat, sp: seq<Span>)
    decreases |sp|
  {
    if sp == [] then NoMatchIn(s, from, |s|)
    else
      && from <= sp[0].start
      && NoMatchIn(s, from, sp[0].start)
      && 0 < sp[0].len == MatchLength(s, sp[0].start)
      && IsLeftmostScan(s, sp[0].start + sp[0].len, sp[1..])
  }

  /** The scan is the leftmost, non-overlapping one. */
  lemma {:induction false} ScanIsLeftmost(s: string, i: nat)
    requires i <= |s|
    ensures IsLeftmostScan(s, i, ScanFrom(s, i))
    decreases |s| - i
  {
    if i < |s| {
      var n := MatchLength(s, i);
      if n > 0 {
        ScanIsLeftmost(s, i + n);
        assert ScanFrom(s, i)[1..] == ScanFrom(s, i + n);
      } else {
        ScanIsLeftmost(s, i + 1);
        var sp := ScanFrom(s, i + 1);
        if sp != [] {
          assert IsLeftmostScan(s, sp[0].start + sp[0].len, sp[1..]);
        }
      }
    }
  }

  /** The leftmost, non-overlapping scan is unique, so it is exactly what the recursive scan computes. */
  lemma {:induction false} LeftmostScanUnique(s: string, i: nat, sp: seq<Span>)
    requires i <= |s|
    requires IsLeftmostScan(s, i, sp)
    ensures sp == ScanFrom(s, i)
    decreases |s| - i
  {
    if i < |s| {
      var n := MatchLength(s, i);
      if n > 0 {
        LeftmostTakesMatchHere(s, i, sp);
        LeftmostScanUnique(s, i + n, sp[1..]);
        assert sp == [Span(i, n)] + sp[1..];
      } else {
        LeftmostPassesNonMatch(s, i, sp);
        LeftmostScanUnique(s, i + 1, sp);
      }
    }
  }

  /** Where a match starts, a leftmost scan takes it. */
  lemma LeftmostTakesMatchHere(s: string, i: nat, sp: seq<Span>)
    requires i < |s| && MatchLength(s, i) > 0 && IsLeftmostScan(s, i, sp)
    ensures sp != [] && sp[0] == Span(i, MatchLength(s, i))
    ensures IsLeftmostScan(s, i + MatchLength(s, i), sp[1..])
  {
    if sp != [] {
      assert sp[0].start == i;
    }
  }

  /** Where no match starts, a leftmost scan from the next position is the same scan. */
  lemma LeftmostPassesNonMatch(s: string, i: nat, sp: seq<Span>)
    requires i < |s| && MatchLength(s, i) == 0 && IsLeftmostScan(s, i, sp)
    ensures IsLeftmostScan(s, i + 1, sp)
  {
    if sp != [] {
      assert sp[0].start != i;
    }
  }

  /** Every span of the scan is a match found where it starts. */
  lemma {:induction false} ScanSpansAreMatches(s: string, i: nat, k: nat)
    requires k < |ScanFrom(s, i)|
    ensures 0 < ScanFrom(s, i)[k].len == MatchLength(s, ScanFrom(s, i)[k].start)
    decreases |s| - i
  {
    var n := MatchLength(s, i);
    if n > 0 {
      if k > 0 {
        ScanSpansAreMatches(s, i + n, k - 1);
      }
    } else {
      ScanSpansAreMatches(s, i + 1, k);
    }
  }

  /** A stretch without `#` holds no match: the scan passes over it. */
  lemma {:induction false} ScanSkipsHashFree(s: string, i: nat, j: nat)
    requires i <= j <= |s| && '#' !in s[i..j]
    ensures ScanFrom(s, i) == ScanFrom(s, j)
    decreases j - i
  {
    if i < j {
      assert s[i..j][0] == s[i];
      assert s[i + 1..j] == s[i..j][1..];
      ScanSkipsHashFree(s, i + 1, j);
    }
  }

  /** A 6-digit token is one match, and the scan resumes after it. */
  lemma ScanSixDigitToken(s: string, i: nat)
    requires i + 7 <= |s| && IsHexColor(s[i..i + 7])
    ensures ScanFrom(s, i) == [Span(i, 7)] + ScanFrom(s, i + 7)
  {
    assert s[i] == s[i..i + 7][0];
    forall k | i + 1 <= k < i + 7 ensures IsHexDigit(s[k]) {
      assert s[k] == s[i..i + 7][k - i];
    }
  }

  /** A 3-digit token not followed by three more hex digits is one match, and the scan resumes after it. */
  lemma ScanThreeDigitToken(s: string, i: nat)
    requires i + 4 <= |s| && IsHexColor(s[i..i + 4])
    requires i + 7 > |s| || !IsHexDigit(s[i + 4]) || !IsHexDigit(s[i + 5]) || !IsHexDigit(s[i + 6])
    ensures ScanFrom(s, i) == [Span(i, 4)] + ScanFrom(s, i + 4)
  {
    assert s[i] == s[i..i + 4][0];
    forall k | i + 1 <= k < i + 4 ensures IsHexDigit(s[k]) {
      assert s[k] == s[i..i + 4][k - i];
    }
    assert !HexDigitsAt(s, i + 1, 6);
  }

  /** The texts of spans that lie within `s`, one for one and in order. */
  function SpanTexts(s: string, sp: seq<Span>): (ts: seq<string>)
    requires forall k :: 0 <= k < |sp| ==> sp[k].start + sp[k].len <= |s|
    ensures |ts| == |sp|
    ensures forall k :: 0 <= k < |sp| ==> ts[k] == s[sp[k].start .. sp[k].start + sp[k].len]
  {
    seq(|sp|, k requires 0 <= k < |sp| => s[sp[k].start .. sp[k].start + sp[k].len])
  }

  /** `s.match(hexRegex)`, with `null` for no match read as the empty list. */
  function Matches(s: string): seq<string> {
    SpanTexts(s, ScanFrom(s, 0))
  }

  /** The Original Color Set: distinct matches in first-seen order. */
  function ExtractColors(s: string): seq<string> {
    Dedup(Matches(s))
  }

  /**
   * Every match is a well-formed hex token that occurs in the input, and it is
   * the 6-digit form exactly when six hex digits follow its `#`.
   */
  lemma MatchesWellFormed(s: string, k: nat)
    requires k < |Matches(s)|
    ensures IsHexColor(Matches(s)[k])
    ensures OccursAt(s, Matches(s)[k], ScanFrom(s, 0)[k].start)
    ensures |Matches(s)[k]| == 7 <==> HexDigitsAt(s, ScanFrom(s, 0)[k].start + 1, 6)
  {
    var sp := ScanFrom(s, 0);
    ScanSpansAreMatches(s, 0, k);
    var t := Matches(s)[k];
    forall j | 1 <= j < |t| ensures IsHexDigit(t[j]) {
      assert t[j] == s[sp[k].start + j];
    }
  }

  /**
   * The extracted colours are well-formed hex tokens that occur in the input,
   * each once, and every match of the scan is among them.
   */
  lemma ExtractionSound(s: string)
    ensures NoDup(ExtractColors(s))
    ensures forall c :: c in ExtractColors(s) ==> IsHexColor(c) && exists p :: OccursAt(s, c, p)
    ensures forall k :: 0 <= k < |Matches(s)| ==> Matches(s)[k] in ExtractColors(s)
  {
    var ms := Matches(s);
    forall c | c in ExtractColors(s)
      ensures IsHexColor(c) && exists p :: OccursAt(s, c, p)
    {
      var j :| 0 <= j < |ExtractColors(s)| && ExtractColors(s)[j] == c;
      var k :| 0 <= k < |ms| && ms[k] == c;
      MatchesWellFormed(s, k);
    }
  }

  /** Colours are listed in the order in which their first match appears. */
  lemma ExtractionOrder(s: string, i: nat, j: nat)
    requires i < j < |ExtractColors(s)|
    ensures FirstIndex(Matches(s), ExtractColors(s)[i]) < FirstIndex(Matches(s), ExtractColors(s)[j])
  {
    DedupFirstSeenOrder(Matches(s), i, j);
  }
}
