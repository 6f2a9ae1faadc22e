/**
 * Export decisions of the diagram editor: the download filename, the choice
 * between PNG, SVG and PDF payloads, the PDF page set-up, and the messages
 * shown when an export fails. Rasterising the preview and writing to the
 * clipboard are foreign calls; they appear as functions passed in, whose
 * outcome may be a failure.
 */
module Export {
  import opened Wrappers

  /**
   * JavaScript's `\s`: the WhiteSpace and LineTerminator code points of the
   * ECMAScript specification (sections 12.2 and 12.3 of the 2024 edition).
   */
  predicate IsWhitespace(c: char) {
    c == '\t' || c == '\n' || c == '\U{000B}' || c == '\U{000C}' || c == '\r' || c == ' '
    || c == '\U{00A0}' || c == '\U{1680}' || '\U{2000}' <= c <= '\U{200A}'
    || c == '\U{2028}' || c == '\U{2029}' || c == '\U{202F}' || c == '\U{205F}'
    || c == '\U{3000}' || c == '\U{FEFF}'
  }

  predicate NoWhitespace(s: string) {
    forall k :: 0 <= k < |s| ==> !IsWhitespace(s[k])
  }

  /** What is left of `s` once the whitespace at its front is dropped. */
  function SkipWhitespace(s: string): (r: string)
    ensures |r| <= |s|
  {
    if s != [] && IsWhitespace(s[0]) then SkipWhitespace(s[1..]) else s
  }

  /** What `SkipWhitespace` drops is a whitespace prefix, and what it keeps starts with non-whitespace. */
  lemma {:induction false} SkipWhitespaceShape(s: string)
    ensures SkipWhitespace(s) == s[|s| - |SkipWhitespace(s)|..]
    ensures SkipWhitespace(s) == [] || !IsWhitespace(SkipWhitespace(s)[0])
    ensures forall k :: 0 <= k < |s| - |SkipWhitespace(s)| ==> IsWhitespace(s[k])
    decreases |s|
  {
    if s != [] && IsWhitespace(s[0]) {
      SkipWhitespaceShape(s[1..]);
      forall k | 1 <= k < |s| - |SkipWhitespace(s)|
        ensures IsWhitespace(s[k])
      {
        assert s[k] == s[1..][k - 1];
      }
    }
  }

  /** `s.replace(/\s+/g, '_')`: each maximal run of whitespace becomes one `_`. */
  function CollapseWhitespace(s: string): (r: string)
    decreases |s|
  {
    if s == [] then []
    else if IsWhitespace(s[0]) then "_" + CollapseWhitespace(SkipWhitespace(s[1..]))
    else [s[0]] + CollapseWhitespace(s[1..])
  }

  /** No whitespace survives the collapse. */
  lemma {:induction false} CollapseRemovesWhitespace(s: string)
    ensures NoWhitespace(CollapseWhitespace(s))
    ensures |CollapseWhitespace(s)| <= |s|
    decreases |s|
  {
    if s != [] {
      if IsWhitespace(s[0]) {
        CollapseRemovesWhitespace(SkipWhitespace(s[1..]));
      } else {
        CollapseRemovesWhitespace(s[1..]);
      }
    }
  }

  /** A title without whitespace is kept as it is. */
  lemma {:induction false} CollapseKeepsPlainText(s: string)
    requires NoWhitespace(s)
    ensures CollapseWhitespace(s) == s
    decreases |s|
  {
    if s != [] {
      assert !IsWhitespace(s[0]);
      CollapseKeepsPlainText(s[1..]);
      assert s == [s[0]] + s[1..];
    }
  }

  /** Collapsing twice is collapsing once. */
  lemma CollapseIdempotent(s: string)
    ensures CollapseWhitespace(CollapseWhitespace(s)) == CollapseWhitespace(s)
  {
    CollapseRemovesWhitespace(s);
    CollapseKeepsPlainText(CollapseWhitespace(s));
  }

  /** A boundary between `a` and `b` that is not inside a whitespace run. */
  predicate RunBoundary(a: string, b: string) {
    a == [] || b == [] || !IsWhitespace(a[|a| - 1]) || !IsWhitespace(b[0])
  }

  /** Dropping leading whitespace from `x + y` stops inside `x` when `x` has a non-whitespace character. */
  lemma {:induction false} SkipWhitespaceConcat(x: string, y: string)
    requires SkipWhitespace(x) != []
    ensures SkipWhitespace(x + y) == SkipWhitespace(x) + y
    decreases |x|
  {
    if IsWhitespace(x[0]) {
      assert (x + y)[1..] == x[1..] + y;
      SkipWhitespaceConcat(x[1..], y);
    } else {
      assert (x + y)[0] == x[0];
    }
  }

  /** Dropping leading whitespace from `w + y` for an all-whitespace `w` drops all of `w`. */
  lemma {:induction false} SkipWhitespaceRun(w: string, y: string)
    requires NoNonWhitespace(w)
    ensures SkipWhitespace(w + y) == SkipWhitespace(y)
    decreases |w|
  {
    if w != [] {
      assert (w + y)[0] == w[0] && (w + y)[1..] == w[1..] + y;
      SkipWhitespaceRun(w[1..], y);
    } else {
      assert w + y == y;
    }
  }

  predicate NoNonWhitespace(w: string) {
    forall k :: 0 <= k < |w| ==> IsWhitespace(w[k])
  }

  /**
   * Collapsing works piecewise across any boundary that does not split a run
   * of whitespace.
   */
  lemma {:induction false} CollapseConcat(a: string, b: string)
    requires RunBoundary(a, b)
    ensures CollapseWhitespace(a + b) == CollapseWhitespace(a) + CollapseWhitespace(b)
    decreases |a|
  {
    if a == [] {
      assert a + b == b;
    } else if b == [] {
      assert a + b == a;
    } else {
      var ab := a + b;
      assert ab[0] == a[0] && ab[1..] == a[1..] + b;
      if !IsWhitespace(a[0]) {
        assert RunBoundary(a[1..], b);
        CollapseConcat(a[1..], b);
        assert CollapseWhitespace(ab) == [a[0]] + CollapseWhitespace(a[1..] + b);
        assert CollapseWhitespace(a) == [a[0]] + CollapseWhitespace(a[1..]);
      } else {
        var x := SkipWhitespace(a[1..]);
        assert CollapseWhitespace(ab) == "_" + CollapseWhitespace(SkipWhitespace(a[1..] + b));
        assert CollapseWhitespace(a) == "_" + CollapseWhitespace(x);
        if x == [] {
          WhitespaceTail(a);
          SkipWhitespaceRun(a[1..], b);
          assert SkipWhitespace(b) == b;
        } else {
          SkipWhitespaceConcat(a[1..], b);
          SkipWhitespaceShape(a[1..]);
          assert x[|x| - 1] == a[|a| - 1];
          CollapseConcat(x, b);
        }
      }
    }
  }

  /** When nothing but whitespace follows a leading whitespace character, the whole text is whitespace. */
  lemma WhitespaceTail(a: string)
    requires a != [] && IsWhitespace(a[0]) && SkipWhitespace(a[1..]) == []
    ensures NoNonWhitespace(a[1..]) && IsWhitespace(a[|a| - 1])
  {
    SkipWhitespaceShape(a[1..]);
    if |a| > 1 {
      assert a[|a| - 1] == a[1..][|a| - 2];
    }
  }

  /** A leading run of whitespace becomes one `_`. */
  lemma CollapseLeadingRun(w: string, b: string)
    requires w != [] && NoNonWhitespace(w)
    requires b == [] || !IsWhitespace(b[0])
    ensures CollapseWhitespace(w + b) == "_" + CollapseWhitespace(b)
  {
    var wb := w + b;
    assert wb[0] == w[0] && wb[1..] == w[1..] + b;
    SkipWhitespaceRun(w[1..], b);
  }

  /** One maximal run of whitespace, between non-whitespace neighbours, becomes exactly one `_`. */
  lemma CollapseRun(a: string, w: string, b: string)
    requires w != [] && NoNonWhitespace(w)
    requires a == [] || !IsWhitespace(a[|a| - 1])
    requires b == [] || !IsWhitespace(b[0])
    ensures CollapseWhitespace(a + (w + b)) == CollapseWhitespace(a) + ("_" + CollapseWhitespace(b))
  {
    assert (w + b)[0] == w[0];
    CollapseConcat(a, w + b);
    CollapseLeadingRun(w, b);
  }

  datatype Format = Png | Svg | Pdf

  function FormatName(f: Format): string {
    match f
    case Png => "png"
    case Svg => "svg"
    case Pdf => "pdf"
  }

  /** `${title.replace(/\s+/g, '_')}_${format}.${format}` */
  function Filename(title: string, f: Format): string {
    CollapseWhitespace(title) + "_" + FormatName(f) + "." + FormatName(f)
  }

  /** The filename carries no whitespace, and ends in `_` + format + `.` + format. */
  lemma FilenameShape(title: string, f: Format)
    ensures NoWhitespace(Filename(title, f))
    ensures Filename(title, f)[..|CollapseWhitespace(title)|] == CollapseWhitespace(title)
    ensures Filename(title, f)[|CollapseWhitespace(title)|..] == "_" + FormatName(f) + "." + FormatName(f)
  {
    var c := CollapseWhitespace(title);
    var suffix := "_" + FormatName(f) + "." + FormatName(f);
    assert Filename(title, f) == c + suffix;
    CollapseRemovesWhitespace(title);
    SuffixHasNoWhitespace(f);
    forall k | 0 <= k < |c + suffix|
      ensures !IsWhitespace((c + suffix)[k])
    {
      if k >= |c| {
        assert (c + suffix)[k] == suffix[k - |c|];
      }
    }
  }

  lemma SuffixHasNoWhitespace(f: Format)
    ensures NoWhitespace("_" + FormatName(f) + "." + FormatName(f))
  {
    match f
    case Png => assert "_" + FormatName(f) + "." + FormatName(f) == "_png.png";
    case Svg => assert "_" + FormatName(f) + "." + FormatName(f) == "_svg.svg";
    case Pdf => assert "_" + FormatName(f) + "." + FormatName(f) == "_pdf.pdf";
  }

  /** The preview container as the layout engine reports it. */
  datatype Element = Element(offsetWidth: nat, offsetHeight: nat)

  /** Which element is rasterised: the preview container, or its first child (the SVG). */
  datatype Target = Container | FirstChild

  /** The options passed to `toPng`; `size` is the explicit `width` and `height`, when given. */
  datatype RasterRequest = RasterRequest(target: Target, pixelRatio: nat, cacheBust: bool, size: Option<(nat, nat)>)

  /** `toPng`: the data URL of the PNG it renders, or the message of the error it throws. */
  type Rasterizer = RasterRequest -> Result<string>

  datatype Orientation = Portrait | Landscape

  /** `width > height ? 'landscape' : 'portrait'` */
  function OrientationOf(width: nat, height: nat): (o: Orientation)
    ensures o == Landscape <==> width > height
    ensures width == height ==> o == Portrait
  {
    if width > height then Landscape else Portrait
  }

  /** `pdf.addImage(data, kind, x, y, width, height)` */
  datatype PlacedImage = PlacedImage(dataUrl: string, kind: string, x: nat, y: nat, width: nat, height: nat)

  /** `new jsPDF({ orientation, unit, format: [width, height] })` with its one image. */
  datatype PdfDocument = PdfDocument(orientation: Orientation, unit: string, pageSize: (nat, nat), image: PlacedImage)

  /** What is handed to the browser to save. */
  datatype SavedFile =
    | PngFile(filename: string, dataUrl: string)
    | SvgFile(filename: string, content: string, mimeType: string)
    | PdfFile(filename: string, document: PdfDocument)

  datatype DownloadOutcome =
    | NoPreview               // the preview is not mounted: nothing happens
    | Saved(file: SavedFile)
    | Failed(alert: string)   // the message shown by `alert`

  const SvgMimeType := "image/svg+xml;charset=utf-8"
  const ZeroDimensions := "Element has 0 dimensions."

  /** The alert for an error caught at the download boundary. */
  function DownloadFailure(cause: string): string {
    "Download failed: " + cause
  }

  /** The PDF path: guard against an empty layout, then rasterise at the element's size. */
  function PdfExport(node: Element, filename: string, rasterize: Rasterizer): DownloadOutcome {
    var w := node.offsetWidth;
    var h := node.offsetHeight;
    if w == 0 || h == 0 then Failed(DownloadFailure(ZeroDimensions))
    else
      match rasterize(RasterRequest(Container, 2, true, Some((w, h))))
      case Err(cause) => Failed(DownloadFailure(cause))
      case Ok(data) =>
        Saved(PdfFile(filename, PdfDocument(OrientationOf(w, h), "px", (w, h), PlacedImage(data, "PNG", 0, 0, w, h))))
  }

  /** `handleDownload(format)` given the preview element, the title and the current derived text. */
  function Download(f: Format, preview: Option<Element>, title: string, svgContent: string,
                    rasterize: Rasterizer): DownloadOutcome
  {
    match preview
    case None => NoPreview
    case Some(node) =>
      var filename := Filename(title, f);
      match f
      case Png =>
        (match rasterize(RasterRequest(Container, 2, true, None))
         case Ok(data) => Saved(PngFile(filename, data))
         case Err(cause) => Failed(DownloadFailure(cause)))
      case Svg => Saved(SvgFile(filename, svgContent, SvgMimeType))
      case Pdf => PdfExport(node, filename, rasterize)
  }

  /**
   * SVG export saves the current derived text exactly, under the computed
   * filename. It neither rasterises nor looks at the element's size.
   */
  lemma SvgExportIsVerbatim(node: Element, title: string, svgContent: string, rasterize: Rasterizer)
    ensures Download(Svg, Some(node), title, svgContent, rasterize)
         == Saved(SvgFile(Filename(title, Svg), svgContent, SvgMimeType))
  {
  }

  /** A PDF of an element with no width or no height fails before any rasterisation. */
  lemma PdfZeroSizeFailsFirst(node: Element, title: string, svgContent: string, r1: Rasterizer, r2: Rasterizer)
    requires node.offsetWidth == 0 || node.offsetHeight == 0
    ensures Download(Pdf, Some(node), title, svgContent, r1) == Failed(DownloadFailure(ZeroDimensions))
    ensures Download(Pdf, Some(node), title, svgContent, r1) == Download(Pdf, Some(node), title, svgContent, r2)
  {
  }

  /**
   * A PDF of a laid-out element is one page of the element's size in pixels,
   * landscape exactly when it is wider than tall, holding the PNG the
   * rasteriser made at that size, placed at the origin and filling the page.
   */
  lemma PdfPageMatchesElement(node: Element, title: string, svgContent: string, rasterize: Rasterizer)
    requires node.offsetWidth > 0 && node.offsetHeight > 0
    requires rasterize(RasterRequest(Container, 2, true, Some((node.offsetWidth, node.offsetHeight)))).Ok?
    ensures var o := Download(Pdf, Some(node), title, svgContent, rasterize);
      && o.Saved? && o.file.PdfFile? && o.file.filename == Filename(title, Pdf)
      && o.file.document.pageSize == (node.offsetWidth, node.offsetHeight)
      && (o.file.document.orientation == Landscape <==> node.offsetWidth > node.offsetHeight)
      && o.file.document.image.x == 0 && o.file.document.image.y == 0
      && o.file.document.image.width == node.offsetWidth
      && o.file.document.image.height == node.offsetHeight
      && o.file.document.unit == "px"
      && o.file.document.image.kind == "PNG"
      && o.file.document.image.dataUrl
         == rasterize(RasterRequest(Container, 2, true, Some((node.offsetWidth, node.offsetHeight)))).value
  {
  }

  /** PNG export has no size guard: whatever the rasteriser returns decides the outcome. */
  lemma PngHasNoSizeGuard(node: Element, title: string, svgContent: string, rasterize: Rasterizer)
    ensures var o := Download(Png, Some(node), title, svgContent, rasterize);
      match rasterize(RasterRequest(Container, 2, true, None))
      case Ok(data) => o == Saved(PngFile(Filename(title, Png), data))
      case Err(cause) => o == Failed(DownloadFailure(cause))
  {
  }

  /**
   * Every failed download reports `Download failed: ` and then the message of
   * the error that was raised: the size guard's own message, or the
   * rasteriser's for the request that was made.
   */
  lemma DownloadFailureNamesCause(f: Format, preview: Option<Element>, title: string, svgContent: string,
                                  rasterize: Rasterizer)
    ensures var o := Download(f, preview, title, svgContent, rasterize);
      && (o.Failed? ==> exists cause :: o.alert == DownloadFailure(cause))
      && (f == Svg ==> !o.Failed?)
    ensures preview.None? ==> Download(f, preview, title, svgContent, rasterize) == NoPreview
    ensures f == Png && preview.Some? ==>
      var raster := rasterize(RasterRequest(Container, 2, true, None));
      raster.Err? ==> Download(f, preview, title, svgContent, rasterize) == Failed(DownloadFailure(raster.cause))
    ensures f == Pdf && preview.Some? && (preview.value.offsetWidth == 0 || preview.value.offsetHeight == 0) ==>
      Download(f, preview, title, svgContent, rasterize) == Failed(DownloadFailure(ZeroDimensions))
    ensures f == Pdf && preview.Some? && preview.value.offsetWidth > 0 && preview.value.offsetHeight > 0 ==>
      var raster := rasterize(RasterRequest(Container, 2, true, Some((preview.value.offsetWidth, preview.value.offsetHeight))));
      raster.Err? ==> Download(f, preview, title, svgContent, rasterize) == Failed(DownloadFailure(raster.cause))
  {
    var o := Download(f, preview, title, svgContent, rasterize);
    if o.Failed? {
      if f == Pdf && preview.value.offsetWidth > 0 && preview.value.offsetHeight > 0 {
        var r := rasterize(RasterRequest(Container, 2, true, Some((preview.value.offsetWidth, preview.value.offsetHeight))));
        assert o.alert == DownloadFailure(r.cause);
      } else if f == Pdf {
        assert o.alert == DownloadFailure(ZeroDimensions);
      } else {
        assert o.alert == DownloadFailure(rasterize(RasterRequest(Container, 2, true, None)).cause);
      }
    }
  }

  /** The platform's clipboard write of a PNG: done, or rejected. */
  datatype ClipboardWrite = Written | Rejected(cause: string)

  datatype CopyOutcome =
    | NothingToCopy           // the preview is not mounted: nothing happens
    | Alerted(alert: string)

  const Copied := "Copied to clipboard!"
  const ClipboardFailure := "Setup clipboard permission or use download."

  /**
   * `copyToClipboard()`: rasterise the preview's first child, then write the
   * image to the clipboard. Every failure is caught and shows one fixed
   * message.
   */
  function CopyToClipboard(preview: Option<Element>, rasterize: Rasterizer,
                           write: string -> ClipboardWrite): CopyOutcome
  {
    match preview
    case None => NothingToCopy
    case Some(_) =>
      match rasterize(RasterRequest(FirstChild, 2, false, None))
      case Err(_) => Alerted(ClipboardFailure)
      case Ok(data) =>
        match write(data)
        case Rejected(_) => Alerted(ClipboardFailure)
        case Written => Alerted(Copied)
  }

  /**
   * The clipboard path reports success only when both the raster and the
   * write succeed, and one generic message otherwise, whichever step failed.
   */
  lemma ClipboardFailureIsGeneric(node: Element, rasterize: Rasterizer, write: string -> ClipboardWrite)
    ensures var req := RasterRequest(FirstChild, 2, false, None);
      CopyToClipboard(Some(node), rasterize, write)
        == if rasterize(req).Ok? && write(rasterize(req).value).Written? then Alerted(Copied)
           else Alerted(ClipboardFailure)
  {
  }
}
