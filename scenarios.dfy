/**
 * Worked examples: the editor's behaviour on concrete SVG texts, including
 * the hazards of matching without word boundaries and of substituting entry
 * by entry.
 */
module Scenarios {
  import opened Wrappers
  import opened Sequences
  import opened ColorExtraction
  import opened ColorMaps
  import opened Substitution
  import opened Export
  import opened DiagramEditor

  // ---- Extraction ----

  /** A 6-digit token followed by text without `#` up to `j`. */
  lemma LongTokenThenHashFree(s: string, i: nat, j: nat)
    requires i + 7 <= j <= |s| && IsHexColor(s[i..i + 7]) && '#' !in s[i + 7..j]
    ensures ScanFrom(s, i) == [Span(i, 7)] + ScanFrom(s, j)
  {
    ScanSixDigitToken(s, i);
    ScanSkipsHashFree(s, i + 7, j);
  }

  /** The scan of a text holding two 6-digit tokens at `i` and `j`, with no `#` elsewhere. */
  lemma TwoLongTokenScan(s: string, i: nat, j: nat)
    requires i + 7 <= j && j + 7 <= |s|
    requires '#' !in s[0..i] && '#' !in s[i + 7..j] && '#' !in s[j + 7..|s|]
    requires IsHexColor(s[i..i + 7]) && IsHexColor(s[j..j + 7])
    ensures ScanFrom(s, 0) == [Span(i, 7), Span(j, 7)]
  {
    ScanSkipsHashFree(s, 0, i);
    LongTokenThenHashFree(s, i, j);
    LongTokenThenHashFree(s, j, |s|);
    assert ScanFrom(s, |s|) == [];
  }

  /** The texts of two spans. */
  lemma TextsOfTwoSpans(s: string, i: nat, n: nat, j: nat, k: nat)
    requires i + n <= |s| && j + k <= |s|
    ensures SpanTexts(s, [Span(i, n), Span(j, k)]) == [s[i..i + n], s[j..j + k]]
  {
  }

  /** Where the pieces of `a + (t1 + (m + (t2 + z)))` stand. */
  lemma FivePieces(a: string, t1: string, m: string, t2: string, z: string)
    requires |t1| == 7 && |t2| == 7
    ensures var s := a + (t1 + (m + (t2 + z)));
      var i := |a|; var j := i + 7 + |m|;
      s[0..i] == a && s[i..i + 7] == t1 && s[i + 7..j] == m && s[j..j + 7] == t2 && s[j + 7..|s|] == z
  {
    var r2 := t2 + z;
    var r1 := m + r2;
    var r0 := t1 + r1;
    var s := a + r0;
    assert s[0..|a|] == a && s[|a|..] == r0;
    assert r0[..7] == t1 && r0[7..] == r1;
    assert r1[..|m|] == m && r1[|m|..] == r2;
    assert r2[..7] == t2 && r2[7..] == z;
  }

  /** The matches of two 6-digit tokens separated by text without `#`. */
  lemma TwoLongTokenMatches(a: string, t1: string, m: string, t2: string, z: string)
    requires '#' !in a && '#' !in m && '#' !in z
    requires |t1| == 7 && IsHexColor(t1) && |t2| == 7 && IsHexColor(t2)
    ensures Matches(a + (t1 + (m + (t2 + z)))) == [t1, t2]
  {
    var s := a + (t1 + (m + (t2 + z)));
    var i := |a|;
    var j := i + 7 + |m|;
    FivePieces(a, t1, m, t2, z);
    TwoLongTokenScan(s, i, j);
    TextsOfTwoSpans(s, i, 7, j, 7);
  }

  /** Two 6-digit tokens separated by text without `#` are the two colours, in order. */
  lemma ExtractTwoLongTokens(a: string, t1: string, m: string, t2: string, z: string)
    requires '#' !in a && '#' !in m && '#' !in z
    requires |t1| == 7 && IsHexColor(t1) && |t2| == 7 && IsHexColor(t2) && t1 != t2
    ensures ExtractColors(a + (t1 + (m + (t2 + z)))) == [t1, t2]
  {
    TwoLongTokenMatches(a, t1, m, t2, z);
    DedupOfDistinct([t1, t2]);
  }

  /**
   * A 3-digit token, a separator that starts with a non-hex character and has
   * no `#`, then a 3-digit token: the two colours, in order.
   */
  lemma ExtractTwoShortTokens(t1: string, g: string, t2: string)
    requires |t1| == 4 && IsHexColor(t1) && |t2| == 4 && IsHexColor(t2) && t1 != t2
    requires g != [] && !IsHexDigit(g[0]) && '#' !in g
    ensures ExtractColors(t1 + g + t2) == [t1, t2]
  {
    TwoShortTokenMatches(t1, g, t2);
    DedupOfDistinct([t1, t2]);
  }

  /** The matches of two 3-digit tokens around a separator that starts with a non-hex character and has no `#`. */
  lemma TwoShortTokenMatches(t1: string, g: string, t2: string)
    requires |t1| == 4 && IsHexColor(t1) && |t2| == 4 && IsHexColor(t2)
    requires g != [] && !IsHexDigit(g[0]) && '#' !in g
    ensures Matches(t1 + g + t2) == [t1, t2]
  {
    var s := t1 + g + t2;
    var j := 4 + |g|;
    assert s[0..4] == t1 && s[4] == g[0] && s[4..j] == g && s[j..j + 4] == t2;
    TwoShortTokenScan(s, j);
    TextsOfTwoSpans(s, 0, 4, j, 4);
  }

  /** The scan of a 3-digit token, a separator without `#` that starts with a non-hex character, and a final 3-digit token. */
  lemma TwoShortTokenScan(s: string, j: nat)
    requires 4 < j && j + 4 == |s|
    requires IsHexColor(s[0..4]) && !IsHexDigit(s[4]) && '#' !in s[4..j] && IsHexColor(s[j..j + 4])
    ensures ScanFrom(s, 0) == [Span(0, 4), Span(j, 4)]
  {
    ScanThreeDigitToken(s, j);
    assert ScanFrom(s, j) == [Span(j, 4)];
    ScanSkipsHashFree(s, 4, j);
    ScanThreeDigitToken(s, 0);
  }


  /** With no word boundary in the pattern, `#abcd` yields `#abc`. */
  lemma NoWordBoundary()
    ensures ExtractColors("#abcd") == ["#abc"]
  {
    var s := "#abcd";
    assert s[0..4] == "#abc" && IsHexColor("#abc");
    ScanThreeDigitToken(s, 0);
    assert '#' !in s[4..5];
    ScanSkipsHashFree(s, 4, 5);
    assert Matches(s) == ["#abc"];
    DedupOfDistinct(["#abc"]);
  }

  /** Comparison is case-sensitive: `#FFF` and `#fff` are two colours. */
  lemma CaseSensitiveColors()
    ensures ExtractColors("#FFF #fff") == ["#FFF", "#fff"]
  {
    assert IsHexColor("#FFF") && IsHexColor("#fff") && "#FFF" != "#fff";
    assert "#FFF #fff" == "#FFF" + " " + "#fff";
    ExtractTwoShortTokens("#FFF", " ", "#fff");
  }

  // ---- Substitution ----

  /** A text made of another token and then text without `#` is left as it is. */
  lemma KeepsOtherTokenAndTail(t: string, z: string, pat: string, rep: string)
    requires |t| == |pat| > 0 && t != pat && t[0] == pat[0] && pat[0] !in t[1..] && pat[0] !in z
    ensures ReplaceAll(t + z, pat, rep) == t + z
  {
    ReplaceEmpty(pat, rep);
    ReplaceSkipsStretch(z, [], pat, rep);
    assert z + [] == z;
    PassesOtherToken(t, z, pat, rep);
  }

  /** A stretch without `#`, then the key, then text the key no longer affects. */
  lemma ReplaceAfterStretch(a: string, pat: string, rest: string, v: string)
    requires pat != [] && pat[0] !in a && ReplaceAll(rest, pat, v) == rest
    ensures ReplaceAll(a + (pat + rest), pat, v) == a + (v + rest)
  {
    ReplacesFront(rest, pat, v);
    ReplaceSkipsStretch(a, pat + rest, pat, v);
  }

  /** Replacing the first of two distinct 6-digit tokens leaves the rest of the text as it was. */
  lemma ReplaceFirstOfTwo(a: string, t1: string, m: string, t2: string, z: string, v: string)
    requires '#' !in a && '#' !in m && '#' !in z
    requires |t1| == 7 && t1[0] == '#' && '#' !in t1[1..]
    requires |t2| == 7 && t2[0] == '#' && '#' !in t2[1..] && t1 != t2
    ensures ReplaceAll(a + (t1 + (m + (t2 + z))), t1, v) == a + (v + (m + (t2 + z)))
  {
    KeepsOtherTokenAndTail(t2, z, t1, v);
    ReplaceSkipsStretch(m, t2 + z, t1, v);
    ReplaceAfterStretch(a, t1, m + (t2 + z), v);
  }

  /** The whole text is the key: it becomes the replacement. */
  lemma ReplaceWhole(pat: string, rep: string)
    requires pat != []
    ensures ReplaceAll(pat, pat, rep) == rep
  {
    ReplacesFront([], pat, rep);
    assert pat + [] == pat && rep + [] == rep;
  }

  /** A different token of the key's length and shape is kept. */
  lemma KeepOtherToken(t: string, pat: string, rep: string)
    requires |t| == |pat| > 0 && t != pat && t[0] == pat[0] && pat[0] !in t[1..]
    ensures ReplaceAll(t, pat, rep) == t
  {
    KeepsOtherTokenAndTail(t, [], pat, rep);
    assert t + [] == t;
  }

  /** A map of two entries applies the first, then the second. */
  lemma SubstituteTwo(base: string, e1: Entry, e2: Entry)
    ensures Substitute(base, [e1, e2])
         == ReplaceAll(ReplaceAll(base, e1.original, e1.current), e2.original, e2.current)
  {
    var m := [e1, e2];
    assert m[..1] == [e1];
    assert Substitute(base, [e1]) == ReplaceAll(base, e1.original, e1.current) by {
      assert [e1][..0] == [];
    }
  }

  /** Token `x`, a `#`-free gap, token `y`, replacing `x`. */
  lemma ReplaceFirstToken(x: string, g: string, y: string, rep: string)
    requires |x| == |y| > 0 && x[0] == y[0] && x[0] !in x[1..] && x[0] !in y[1..] && x[0] !in g && x != y
    ensures ReplaceAll(x + (g + y), x, rep) == rep + (g + y)
  {
    KeepOtherToken(y, x, rep);
    ReplaceSkipsStretch(g, y, x, rep);
    ReplacesFront(g + y, x, rep);
  }

  /** Token `x`, a `#`-free gap, token `y`, replacing `y`. */
  lemma ReplaceSecondToken(x: string, g: string, y: string, rep: string)
    requires |x| == |y| > 0 && x[0] == y[0] && y[0] !in x[1..] && y[0] !in y[1..] && y[0] !in g && x != y
    ensures ReplaceAll(x + (g + y), y, rep) == x + (g + rep)
  {
    ReplaceWhole(y, rep);
    ReplaceSkipsStretch(g, y, y, rep);
    PassesOtherToken(x, g + y, y, rep);
  }

  /** Token `x`, a gap, token `x` again, with key `x`. */
  lemma ReplaceBothTokens(x: string, g: string, rep: string)
    requires x != [] && x[0] !in g
    ensures ReplaceAll(x + (g + x), x, rep) == rep + (g + rep)
  {
    ReplaceWhole(x, rep);
    ReplaceSkipsStretch(g, x, x, rep);
    ReplacesFront(g + x, x, rep);
  }

  /** Token `x`, a gap, token `x` again and a `#`-free tail, with key `x`. */
  lemma ReplaceBothTokensBeforeTail(x: string, g: string, t: string, rep: string)
    requires x != [] && x[0] !in g && x[0] !in t
    ensures ReplaceAll(x + (g + (x + t)), x, rep) == rep + (g + (rep + t))
  {
    ReplaceEmpty(x, rep);
    ReplaceSkipsStretch(t, [], x, rep);
    assert t + [] == t;
    ReplacesFront(t, x, rep);
    ReplaceSkipsStretch(g, x + t, x, rep);
    ReplacesFront(g + (x + t), x, rep);
  }

  /**
   * Double substitution: when a replacement equals a later key, the text it
   * produced is replaced again, so the result depends on the order of entries.
   */
  lemma DoubleSubstitution(a: string, b: string, c: string, g: string)
    requires |a| == |b| == |c| > 0 && a[0] == b[0] == c[0]
    requires a[0] !in a[1..] && a[0] !in b[1..] && a[0] !in c[1..] && a[0] !in g
    requires a != b && b != c && a != c
    ensures Substitute(a + (g + b), [Entry(a, b), Entry(b, c)]) == c + (g + c)
    ensures Substitute(a + (g + b), [Entry(b, c), Entry(a, b)]) == b + (g + c)
  {
    SubstituteTwo(a + (g + b), Entry(a, b), Entry(b, c));
    ReplaceFirstToken(a, g, b, b);
    ReplaceBothTokens(b, g, c);
    SubstituteTwo(a + (g + b), Entry(b, c), Entry(a, b));
    ReplaceSecondToken(a, g, b, c);
    ReplaceFirstToken(a, g, c, b);
  }

  lemma DoubleSubstitutionExample()
    ensures Substitute("#aaa" + (" " + "#bbb"), [Entry("#aaa", "#bbb"), Entry("#bbb", "#ccc")]) == "#ccc" + (" " + "#ccc")
    ensures Substitute("#aaa" + (" " + "#bbb"), [Entry("#bbb", "#ccc"), Entry("#aaa", "#bbb")]) == "#bbb" + (" " + "#ccc")
  {
    DoubleSubstitution("#aaa", "#bbb", "#ccc", " ");
  }

  /**
   * A 3-digit key also rewrites the first four characters of a 6-digit token
   * that begins with it: after recolouring `#fff` in `#fff #ffffff`, the
   * colour `#ffffff` is gone from the text although its own entry was not
   * edited.
   */
  lemma ShortKeyRewritesLongToken()
    ensures ExtractColors("#fff" + (" " + ("#fff" + "fff"))) == ["#fff", "#ffffff"]
    ensures Substitute("#fff" + (" " + ("#fff" + "fff")), Put(IdentityOf(["#fff", "#ffffff"]), "#fff", "#000000"))
         == "#000000" + (" " + ("#000000" + "fff"))
  {
    ShortAndLongColors("#fff" + (" " + ("#fff" + "fff")));
    ShortKeyEdit("#fff" + (" " + ("#fff" + "fff")));
  }

  lemma ShortAndLongColors(s: string)
    requires s == "#fff" + (" " + ("#fff" + "fff"))
    ensures ExtractColors(s) == ["#fff", "#ffffff"]
  {
    ShortThenLongScan(s);
    DedupOfDistinct(["#fff", "#ffffff"]);
  }

  lemma ShortKeyEdit(s: string)
    requires s == "#fff" + (" " + ("#fff" + "fff"))
    ensures Substitute(s, Put(IdentityOf(["#fff", "#ffffff"]), "#fff", "#000000")) == "#000000" + (" " + ("#000000" + "fff"))
  {
    SingleEditFromIdentity(s, ["#fff", "#ffffff"], "#fff", "#000000");
    ReplaceBothTokensBeforeTail("#fff", " ", "fff", "#000000");
  }

  lemma ShortThenLongScan(s: string)
    requires s == "#fff" + (" " + ("#fff" + "fff"))
    ensures Matches(s) == ["#fff", "#ffffff"]
  {
    ShortThenLongPieces(s);
    ScanSixDigitToken(s, 5);
    assert ScanFrom(s, 5) == [Span(5, 7)];
    ScanSkipsHashFree(s, 4, 5);
    ScanThreeDigitToken(s, 0);
    assert ScanFrom(s, 0) == [Span(0, 4), Span(5, 7)];
    TextsOfTwoSpans(s, 0, 4, 5, 7);
  }

  lemma ShortThenLongPieces(s: string)
    requires s == "#fff" + (" " + ("#fff" + "fff"))
    ensures |s| == 12 && s[0..4] == "#fff" && s[4] == ' ' && '#' !in s[4..5] && s[5..12] == "#ffffff"
    ensures IsHexColor("#fff") && IsHexColor("#ffffff")
  {
  }

  // ---- A session: load, recolour, export ----

  /** `<svg><rect fill="#ff0000"/><circle fill="#00ff00"/></svg>`, in pieces. */
  const SvgHead := "<svg><rect fill=\""
  const SvgMiddle := "\"/><circle fill=\""
  const SvgTail := "\"/></svg>"
  const Red := "#ff0000"
  const Green := "#00ff00"
  const Blue := "#0000ff"
  const DiagramSvg := SvgHead + (Red + (SvgMiddle + (Green + SvgTail)))
  const RecolouredSvg := SvgHead + (Blue + (SvgMiddle + (Green + SvgTail)))

  lemma SvgPiecesHaveNoHash()
    ensures '#' !in SvgHead && '#' !in SvgMiddle && '#' !in SvgTail
  {
  }

  lemma ColorTokens()
    ensures IsHexColor(Red) && IsHexColor(Green) && |Red| == |Green| == 7 && Red != Green
    ensures Red[0] == '#' && '#' !in Red[1..] && Green[0] == '#' && '#' !in Green[1..]
  {
  }

  lemma DiagramSvgColors()
    ensures ExtractColors(DiagramSvg) == [Red, Green]
  {
    SvgPiecesHaveNoHash();
    ColorTokens();
    ExtractTwoLongTokens(SvgHead, Red, SvgMiddle, Green, SvgTail);
  }

  lemma DiagramSvgRecoloured()
    ensures ReplaceAll(DiagramSvg, Red, Blue) == RecolouredSvg
  {
    SvgPiecesHaveNoHash();
    ColorTokens();
    ReplaceFirstOfTwo(SvgHead, Red, SvgMiddle, Green, SvgTail, Blue);
  }

  /** Two words without whitespace, joined by one space, are joined by `_` in the filename. */
  lemma TwoWordFilename(x: string, y: string, f: Format)
    requires x != [] && y != [] && NoWhitespace(x) && NoWhitespace(y)
    ensures Filename(x + (" " + y), f) == x + ("_" + y) + "_" + FormatName(f) + "." + FormatName(f)
  {
    assert NoNonWhitespace(" ");
    CollapseRun(x, " ", y);
    CollapseKeepsPlainText(x);
    CollapseKeepsPlainText(y);
  }

  lemma TitleFilename()
    ensures Filename("Diagram" + (" " + "Title"), Svg) == "Diagram_Title_svg.svg"
  {
    PlainWords();
    TwoWordFilename("Diagram", "Title", Svg);
  }

  lemma PlainWords()
    ensures NoWhitespace("Diagram") && NoWhitespace("Title")
  {
  }

  /** The SVG download of the recoloured diagram, whatever the preview's size and the rasteriser. */
  lemma RecolouredSvgDownload(node: Element, rasterize: Rasterizer)
    ensures Download(Svg, Some(node), "Diagram" + (" " + "Title"), RecolouredSvg, rasterize)
         == Saved(SvgFile("Diagram_Title_svg.svg", RecolouredSvg, SvgMimeType))
  {
    SvgExportIsVerbatim(node, "Diagram" + (" " + "Title"), RecolouredSvg, rasterize);
    TitleFilename();
  }

  /** Load a diagram, recolour its red, export it, then reset. */
  method RecolourAndExport() {
    DiagramSvgColors();
    var editor := new Editor("Diagram" + (" " + "Title"), DiagramSvg);
    assert editor.colorMap == IdentityOf([Red, Green]);
    ColorTokens();

    editor.HandleColorChange(Red, Blue);
    DiagramRecolourStep();
    assert editor.svgContent == RecolouredSvg;

    ExportFromEmptyPreview(editor);

    editor.Reset();
    assert editor.svgContent == DiagramSvg;
  }

  /**
   * Export the recoloured diagram from a preview with no layout size: the SVG
   * is saved verbatim, the PDF fails on the size guard, and nothing changes.
   */
  method ExportFromEmptyPreview(editor: Editor)
    requires editor.Valid() && editor.title == "Diagram" + (" " + "Title") && editor.svgContent == RecolouredSvg
  {
    var preview := Some(Element(0, 0));
    var rasterize := (req: RasterRequest) => Err("no layout");
    var svg := editor.HandleDownload(Svg, preview, rasterize);
    RecolouredSvgDownload(Element(0, 0), rasterize);
    assert svg == Saved(SvgFile("Diagram_Title_svg.svg", RecolouredSvg, SvgMimeType));

    var pdf := editor.HandleDownload(Pdf, preview, rasterize);
    PdfZeroSizeFailsFirst(Element(0, 0), editor.title, editor.svgContent, rasterize, rasterize);
    assert pdf == Failed(DownloadFailure(ZeroDimensions));
  }

  /** Recolouring red to blue from the identity map over the diagram's colours. */
  lemma DiagramRecolourStep()
    ensures Substitute(DiagramSvg, Put(IdentityOf([Red, Green]), Red, Blue)) == RecolouredSvg
  {
    ColorTokens();
    SingleEditFromIdentity(DiagramSvg, [Red, Green], Red, Blue);
    DiagramSvgRecoloured();
  }

  /**
   * The derived text is recomputed from the initial text at every edit: a
   * second edit of the same colour is not applied to the first edit's result,
   * where the key no longer occurs.
   */
  method RecomputesFromInitialText(s: string, c1: string, c2: string)
    requires ExtractColors(s) == [s]
    requires |s| == |c1| > 0 && s != c1 && s[0] == c1[0] && s[0] !in c1[1..]
  {
    ExtractionSound(s);
    assert s in ExtractColors(s);
    var editor := new Editor("T", s);
    editor.HandleColorChange(s, c1);
    editor.HandleColorChange(s, c2);
    SameColorEditedTwice(s, c1, c2);
    assert editor.svgContent == c2;
  }

  /**
   * Two edits of the only colour of a text that is that colour: the map holds
   * the second value and the text is that value, while replacing the colour in
   * the first edit's text would have changed nothing.
   */
  lemma SameColorEditedTwice(x: string, v1: string, v2: string)
    requires |x| == |v1| > 0 && x != v1 && x[0] == v1[0] && x[0] !in v1[1..]
    ensures Put(Put(IdentityOf([x]), x, v1), x, v2) == [Entry(x, v2)]
    ensures Substitute(x, [Entry(x, v2)]) == v2
    ensures ReplaceAll(v1, x, v2) == v1
  {
    assert IdentityOf([x]) == [Entry(x, x)];
    assert [Entry(x, v2)][..0] == [];
    ReplaceWhole(x, v2);
    KeepOtherToken(v1, x, v2);
  }

  /** The generic example above, on `#aaa` edited to `#bbb` and then `#ccc`. */
  method RecomputesFromInitialTextExample() {
    SingleTokenScan("#aaa");
    RecomputesFromInitialText("#aaa", "#bbb", "#ccc");
  }

  lemma SingleTokenScan(s: string)
    requires s == "#aaa"
    ensures ExtractColors(s) == [s]
  {
    assert s[0..4] == s && IsHexColor(s);
    ScanThreeDigitToken(s, 0);
    assert Matches(s) == [s];
    DedupOfDistinct([s]);
  }
}
