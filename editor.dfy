/**
 * The recolouring state controller of `DiagramEditor`: the initial SVG text
 * given as a prop, and the state `svgContent`, `originalColors` and
 * `colorMap`. Each React effect is modelled as the synchronous recomputation
 * that follows the state change it depends on.
 */
module DiagramEditor {
  import opened Wrappers
  import opened Sequences
  import opened ColorExtraction
  import opened ColorMaps
  import opened Substitution
  import opened Export

  /**
   * `colors.forEach(c => map[c] = c)` on an empty object: each colour is
   * assigned to itself in turn, so a repeated colour keeps its first place.
   */
  method BuildIdentityMap(colors: seq<string>) returns (m: ColorMap)
    ensures Keys(m) == Dedup(colors) && IsIdentity(m)
    ensures m == IdentityOf(Dedup(colors))
  {
    m := [];
    for i := 0 to |colors|
      invariant m == IdentityOf(Dedup(colors[..i]))
    {
      var prefix := colors[..i + 1];
      assert prefix[..i] == colors[..i] && prefix[i] == colors[i];
      PutIdentity(Dedup(colors[..i]), colors[i]);
      m := Put(m, colors[i], colors[i]);
    }
    assert colors[..|colors|] == colors;
    IdentityOfIsIdentity(Dedup(colors));
  }

  /**
   * One edit from the identity map recolours exactly that colour: every other
   * entry maps a colour to itself, so even a later key equal to the new value
   * leaves the text unchanged.
   */
  lemma SingleEditFromIdentity(base: string, colors: seq<string>, c: string, v: string)
    requires c in colors
    ensures Substitute(base, Put(IdentityOf(colors), c, v)) == ReplaceAll(base, c, v)
  {
    var j := FirstIndex(colors, c);
    EditOfIdentity(colors, c, v);
    SubstituteEditAmidIdentity(base, IdentityOf(colors)[..j], Entry(c, v), IdentityOf(colors)[j + 1..]);
  }

  /** In the identity map over distinct colours, an edit replaces the colour's own entry where it stands. */
  lemma EditOfIdentity(colors: seq<string>, c: string, v: string)
    requires c in colors
    ensures var m := IdentityOf(colors); var j := FirstIndex(colors, c);
      Put(m, c, v) == m[..j] + [Entry(c, v)] + m[j + 1..]
  {
    assert Keys(IdentityOf(colors)) == colors;
    PutReplacesFirst(IdentityOf(colors), c, v);
  }


  /** Entries that map colours to themselves, before and after one edit, leave that edit to act alone. */
  lemma SubstituteEditAmidIdentity(base: string, m1: ColorMap, e: Entry, m2: ColorMap)
    requires IsIdentity(m1) && IsIdentity(m2)
    ensures Substitute(base, m1 + [e] + m2) == ReplaceAll(base, e.original, e.current)
  {
    SubstituteConcat(base, m1 + [e], m2);
    SubstituteConcat(base, m1, [e]);
    SubstituteIdentity(base, m1);
    assert [e][..0] == [];
    SubstituteIdentity(ReplaceAll(base, e.original, e.current), m2);
  }

  class Editor {
    const title: string
    const initialSvgContent: string
    var svgContent: string
    var originalColors: seq<string>
    var colorMap: ColorMap

    /**
     * The colours are those extracted from the initial text, the map's keys
     * are distinct and start with exactly those colours in that order (an
     * edit of a colour outside them adds a key at the end), and the derived
     * text is the fold of the map over the initial text.
     */
    ghost predicate Valid()
      reads this
    {
      && originalColors == ExtractColors(initialSvgContent)
      && originalColors <= Keys(colorMap)
      && NoDup(Keys(colorMap))
      && svgContent == Substitute(initialSvgContent, colorMap)
    }

    /** Mounting the editor: initial state, then the extraction effect, then the substitution effect. */
    constructor (title: string, initialSvgContent: string)
      ensures Valid()
      ensures this.title == title && this.initialSvgContent == initialSvgContent
      ensures originalColors == ExtractColors(initialSvgContent)
      ensures colorMap == IdentityOf(originalColors)
      ensures svgContent == initialSvgContent
      ensures Matches(initialSvgContent) == [] ==> originalColors == [] && colorMap == []
    {
      this.title := title;
      this.initialSvgContent := initialSvgContent;
      svgContent := initialSvgContent;
      originalColors := [];
      colorMap := [];
      new;
      var matches := Matches(initialSvgContent);
      if matches != [] {
        var uniqueColors := Dedup(matches);
        originalColors := uniqueColors;
        colorMap := BuildIdentityMap(uniqueColors);
        DedupOfDistinct(uniqueColors);
      }
      svgContent := ApplyColorMap(initialSvgContent, colorMap);
      IdentityOfIsIdentity(originalColors);
      SubstituteIdentity(initialSvgContent, colorMap);
    }

    /**
     * `handleColorChange(original, newColor)` followed by the substitution
     * effect. The entry for `original` takes the new value where it stands;
     * a colour without an entry gets a new one at the end. The key is a hex
     * token, as every colour the component offers for editing is.
     */
    method HandleColorChange(original: string, newColor: string)
      requires Valid() && IsHexColor(original)
      modifies this
      ensures Valid()
      ensures originalColors == old(originalColors)
      ensures colorMap == Put(old(colorMap), original, newColor)
      ensures original in Keys(old(colorMap)) ==> Keys(colorMap) == Keys(old(colorMap))
      ensures original in Keys(old(colorMap)) ==> |colorMap| == |old(colorMap)|
      ensures original in Keys(old(colorMap)) ==> forall j :: 0 <= j < |colorMap| ==>
        colorMap[j] == if old(colorMap)[j].original == original then Entry(original, newColor) else old(colorMap)[j]
      ensures original !in Keys(old(colorMap)) ==> colorMap == old(colorMap) + [Entry(original, newColor)]
      ensures Lookup(colorMap, original) == Some(newColor)
      ensures forall k :: k != original ==> Lookup(colorMap, k) == Lookup(old(colorMap), k)
      ensures svgContent == Substitute(initialSvgContent, colorMap)
      ensures original !in Keys(old(colorMap)) ==> svgContent == ReplaceAll(old(svgContent), original, newColor)
    {
      var m := colorMap;
      PutOverwritesOrAppends(m, original, newColor);
      if original !in Keys(m) {
        assert (m + [Entry(original, newColor)])[..|m|] == m;
      }
      var updated := Put(m, original, newColor);
      var text := ApplyColorMap(initialSvgContent, updated);
      colorMap, svgContent := updated, text;
    }

    /** The Reset button: the identity map over `originalColors`, then the substitution effect. */
    method Reset()
      requires Valid()
      modifies this
      ensures Valid()
      ensures originalColors == old(originalColors)
      ensures colorMap == IdentityOf(originalColors)
      ensures svgContent == initialSvgContent
    {
      var colors := originalColors;
      DedupOfDistinct(colors);
      var m := BuildIdentityMap(colors);
      SubstituteIdentity(initialSvgContent, m);
      var text := ApplyColorMap(initialSvgContent, m);
      colorMap, svgContent := m, text;
    }

    /** `handleDownload(format)`: it reads the state and changes none of it. */
    method HandleDownload(f: Format, preview: Option<Element>, rasterize: Rasterizer) returns (o: DownloadOutcome)
      requires Valid()
      ensures o == Download(f, preview, title, svgContent, rasterize)
      ensures f == Svg && preview.Some? ==> o == Saved(SvgFile(Filename(title, Svg), svgContent, SvgMimeType))
    {
      o := Download(f, preview, title, svgContent, rasterize);
    }

    /** `copyToClipboard()`: it reads the preview and changes no state. */
    method CopyImage(preview: Option<Element>, rasterize: Rasterizer, write: string -> ClipboardWrite)
      returns (o: CopyOutcome)
      ensures o == CopyToClipboard(preview, rasterize, write)
      ensures preview.None? ==> o == NothingToCopy
      ensures preview.Some? ==>
        var raster := rasterize(RasterRequest(FirstChild, 2, false, None));
        o == if raster.Ok? && write(raster.value).Written? then Alerted(Copied) else Alerted(ClipboardFailure)
    {
      if preview.Some? {
        ClipboardFailureIsGeneric(preview.value, rasterize, write);
      }
      o := CopyToClipboard(preview, rasterize, write);
    }
  }
}
