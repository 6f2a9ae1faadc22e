# Diagram editor recolouring core, in Dafny

This project models the recolouring and export logic of the diagram editor
component, `DiagramEditor`. The editor works in four steps:

- It receives an SVG diagram as text.
- It extracts the hex colours that occur in it, in first-seen order, and
  builds an identity colour map.
- When the user picks a new value for a colour, it rebuilds the displayed SVG
  text from the initial text. It does this by replacing each original colour
  with its current value, entry by entry, in the map's insertion order.
- It exports the result: PNG through a rasteriser, SVG as the current text
  verbatim, or PDF as one page sized to the preview element. Any failure is
  turned into an alert.

The modules follow that structure:

- `Wrappers`: the `Option` and `Result` types.
- `Sequences`: first occurrence (`FirstIndex`) and first-seen duplicate
  removal (`Dedup`), which is `Array.from(new Set(xs))`.
- `ColorExtraction`: the global scan of `/#[0-9a-fA-F]{6}|#[0-9a-fA-F]{3}/g`.
  This is the 3- and 6-digit hex notation of section 5.2 of CSS Color Module
  Level 4. The scan is a recursive function over positions (`ScanFrom`).
  Independently, it is characterised as the unique leftmost, non-overlapping
  scan (`IsLeftmostScan`).
- `ColorMaps`: a JavaScript object, modelled as a sequence of entries in
  insertion order. `Put` is `{ ...m, [k]: v }`: it overwrites the entry in
  place, or appends a new one.
- `Substitution`:
  - `ReplaceAll` is a global literal `replace`.
  - `Substitute` is the left fold of the map over the initial text.
  - `ApplyColorMap` is the `forEach` loop that computes it.
- `Export`:
  - the filename, with JavaScript's `\s` class;
  - the choice among PNG, SVG and PDF;
  - the PDF size guard, orientation and page;
  - the alert texts;
  - the clipboard path.
- `DiagramEditor`: the `Editor` class.
  - Its immutable fields are the title and the initial text. Its mutable
    fields are `svgContent`, `originalColors` and `colorMap`.
  - Its methods are mounting, `HandleColorChange`, `Reset`, `HandleDownload`
    and `CopyImage`.
  - Each React effect is modelled as the synchronous recomputation that
    follows the state change it depends on.
- `Scenarios`: worked examples on concrete texts. These cover:
  - a two-colour example diagram;
  - `#abcd` without a word boundary;
  - case-sensitive colours;
  - double substitution through a chain of entries;
  - a 3-digit key rewriting the front of a 6-digit token;
  - the title `Diagram Title`;
  - a full session: load, recolour, export from an unsized preview, reset.

The rasteriser (`toPng`) and the clipboard write are passed in as functions
that may fail. The preview element is passed in as its `offsetWidth` and
`offsetHeight`, or as absent when it is not mounted.

Three behaviours of the code are worth stating outright:

- **Editing a colour that is not in the original set.**
  `handleColorChange` has no membership check. A hex colour outside
  `originalColors` gets a new entry at the end of the map, which is then
  substituted into the text like any other entry. `Editor.HandleColorChange`
  states both cases. The only caller in the component passes a member of
  `originalColors`.
- **PNG export of an element with no size.** The PNG path has no size guard.
  Only the PDF path checks the size, so the PNG outcome is whatever the
  rasteriser returns. See `Export.PngHasNoSizeGuard`.
- **Clipboard failures.** Every clipboard failure shows the same message,
  whether rasterising, fetching or writing failed. See
  `Export.ClipboardFailureIsGeneric`.

## Model

| member | source | states |
|---|---|---|
| ColorExtraction.MatchLengthIsToken | components/DiagramEditor.tsx:24 | at one position the match is the `#`+6-digit token when one stands there. Failing that, it is the `#`+3-digit token when one stands there. Otherwise there is no match. The first alternative takes priority, as the regular expression tries it first. |
| ColorExtraction.ScanIsLeftmost | components/DiagramEditor.tsx:24-25 | the computed scan is leftmost and non-overlapping. Each span is a match with no match starting before it since the previous one. No match starts after the last span. |
| ColorExtraction.LeftmostScanUnique | components/DiagramEditor.tsx:24-25 | any leftmost, non-overlapping scan equals the computed one. The global match is therefore determined uniquely. |
| ColorExtraction.ScanSpansAreMatches | components/DiagramEditor.tsx:24-25 | every span of the scan is a non-empty match of the length found at its start |
| ColorExtraction.MatchesWellFormed | components/DiagramEditor.tsx:24-25 | every match is `#` plus 3 or 6 hex digits. It occurs in the text where its span starts. It is the 6-digit form exactly when six hex digits follow its `#`. |
| ColorExtraction.ScanSkipsHashFree | components/DiagramEditor.tsx:24-25 | a stretch of text without `#` contributes no match |
| ColorExtraction.ScanSixDigitToken | components/DiagramEditor.tsx:24-25 | a `#`+6-digit token is taken whole, and the scan resumes after it |
| ColorExtraction.ScanThreeDigitToken | components/DiagramEditor.tsx:24-25 | a `#`+3-digit token not followed by three more hex digits is taken, and the scan resumes after it |
| ColorExtraction.ExtractionSound | components/DiagramEditor.tsx:24-27 | the original colours have no duplicates. Each is a hex token that occurs in the text. Every match is among them. |
| ColorExtraction.ExtractionOrder | components/DiagramEditor.tsx:25-27 | the original colours are listed in the order of their first match |
| Sequences.FirstIndex | components/DiagramEditor.tsx:27 | the result is an occurrence of the element with no earlier occurrence |
| Sequences.FirstIndexUnique | components/DiagramEditor.tsx:27 | an occurrence with none before it is the first index |
| Sequences.FirstIndexAppend | components/DiagramEditor.tsx:27 | inserting after the end does not move an existing first occurrence |
| Sequences.Dedup | components/DiagramEditor.tsx:27 | the result has no duplicates. It holds only elements of the input, and every input element. |
| Sequences.DedupFirstSeenOrder | components/DiagramEditor.tsx:27 | the result lists the distinct elements in the order of their first occurrence, as a Set's insertion order does |
| Sequences.DedupOfDistinct | components/DiagramEditor.tsx:27 | a sequence without duplicates is left as it is |
| ColorMaps.Lookup | components/DiagramEditor.tsx:215 | `colorMap[color]` has a value exactly when the key is present |
| ColorMaps.IdentityOfIsIdentity | components/DiagramEditor.tsx:29-30 | the identity map over a colour list has exactly those keys, in that order, each mapped to itself |
| ColorMaps.PutAbsent | components/DiagramEditor.tsx:48 | assigning a new key appends its entry after all others |
| ColorMaps.PutPresent | components/DiagramEditor.tsx:48 | with distinct keys, assigning a present key changes that entry's value where it stands. Every other entry keeps its place and value. |
| ColorMaps.PutReplacesFirst | components/DiagramEditor.tsx:48 | assigning a present key rewrites its first entry in place and leaves the rest as it was |
| ColorMaps.PutOverwritesOrAppends | components/DiagramEditor.tsx:48 | with distinct keys there are two cases: an in-place overwrite of the present key, or an append for a new one. The old keys stay a prefix, keys stay distinct, the key reads back its new value, and no other key's lookup changes. |
| ColorMaps.PutKeys | components/DiagramEditor.tsx:48 | the keys after an assignment are the old keys, or the old keys plus the new one at the end. They stay distinct, and the assigned key reads back the new value. |
| ColorMaps.LookupAt | components/DiagramEditor.tsx:215 | with distinct keys, looking up an entry's key finds that entry's value |
| ColorMaps.PutOther | components/DiagramEditor.tsx:48 | assigning one key leaves the lookup of every other key unchanged |
| ColorMaps.PutIdentity | components/DiagramEditor.tsx:30 | `map[c] = c` on an identity map keeps it as is if `c` is present, and otherwise appends `c` |
| ColorMaps.PutSame | components/DiagramEditor.tsx:30 | assigning a key to itself, when its first entry already maps it to itself, changes nothing |
| Substitution.ApplyColorMap | components/DiagramEditor.tsx:36-45 | the `forEach` loop computes the left fold of the entries, in insertion order, over the initial text |
| Substitution.ReplaceSelf | components/DiagramEditor.tsx:41-42 | replacing a token with itself leaves any text unchanged |
| Substitution.ReplaceAbsent | components/DiagramEditor.tsx:41-42 | a text in which the pattern never occurs is unchanged |
| Substitution.ReplaceAtFirst | components/DiagramEditor.tsx:41-42 | for a non-empty token: the text before its first occurrence is kept, that occurrence is replaced, and replacement goes on after it. Together with `ReplaceAbsent`, this determines global replacement by occurrences alone. |
| Substitution.ReplaceSkipsStretch | components/DiagramEditor.tsx:41-42 | a stretch without the pattern's first character is copied as it is |
| Substitution.ReplacesFront | components/DiagramEditor.tsx:41-42 | an occurrence at the front is replaced, and scanning continues after it, with no overlap |
| Substitution.CopiesFront | components/DiagramEditor.tsx:41-42 | where the pattern does not start, one character is copied and scanning moves on by one |
| Substitution.CopiesFrontOfOther | components/DiagramEditor.tsx:41-42 | a different token of the pattern's length at the front has its first character copied |
| Substitution.PassesOtherToken | components/DiagramEditor.tsx:41-42 | a different token of the same length, with `#` only at its front, passes through unchanged |
| Substitution.ReplaceEmpty | components/DiagramEditor.tsx:41-42 | nothing is produced from an empty text |
| Substitution.SubstituteIdentity | components/DiagramEditor.tsx:38-42 | when every entry maps a colour to itself, the derived text equals the initial text |
| Substitution.SubstituteConcat | components/DiagramEditor.tsx:38-43 | folding two maps one after the other equals folding their concatenation: each step works on the previous step's output |
| Substitution.SubstituteSkipsSelfEntry | components/DiagramEditor.tsx:38-43 | an entry mapping a colour to itself has no effect, wherever it stands |
| DiagramEditor.BuildIdentityMap | components/DiagramEditor.tsx:29-31 | the `forEach` loop builds the identity map over the distinct colours, with keys in first-seen order |
| DiagramEditor.SingleEditFromIdentity | components/DiagramEditor.tsx:36-49 | one edit from the identity map is exactly one global replacement of that colour on the initial text |
| DiagramEditor.EditOfIdentity | components/DiagramEditor.tsx:48 | editing a colour of the identity map rewrites that colour's own entry where it stands |
| DiagramEditor.SubstituteEditAmidIdentity | components/DiagramEditor.tsx:38-43 | identity entries before and after one edited entry leave that edit to act alone |
| DiagramEditor.Editor.constructor | components/DiagramEditor.tsx:15-33 | after mounting: the colours are those extracted from the text, the map is their identity map, and the displayed text is the initial text. With no match, both stay empty. |
| DiagramEditor.Editor.HandleColorChange | components/DiagramEditor.tsx:47-49 | for a hex-colour key the invariant is kept. The colour's entry takes the new value in place, or a new entry is appended. Every other entry and every other lookup is unchanged. The displayed text is recomputed from the initial text. |
| DiagramEditor.Editor.Reset | components/DiagramEditor.tsx:191-194 | the map becomes the identity map over the original colours, and the displayed text becomes the initial text again |
| DiagramEditor.Editor.HandleDownload | components/DiagramEditor.tsx:51-111 | the outcome is the export decision for the current state, and the state is not changed. An SVG download saves `svgContent`. |
| DiagramEditor.Editor.CopyImage | components/DiagramEditor.tsx:113-131 | with no preview nothing happens. Otherwise the alert is `Copied to clipboard!` exactly when rasterising the preview's first child succeeds and the clipboard accepts the image. In every other case it is the one fixed failure message. No state changes. |
| Export.SkipWhitespaceShape | components/DiagramEditor.tsx:59 | what is dropped from the front is all whitespace, and what is kept does not start with whitespace |
| Export.CollapseRemovesWhitespace | components/DiagramEditor.tsx:59 | the collapsed title has no whitespace and is no longer than the title |
| Export.CollapseKeepsPlainText | components/DiagramEditor.tsx:59 | a title with no whitespace is kept as it is |
| Export.CollapseIdempotent | components/DiagramEditor.tsx:59 | collapsing twice is the same as collapsing once |
| Export.SkipWhitespaceConcat | components/DiagramEditor.tsx:59 | skipping a run that ends inside the first part leaves the second part untouched |
| Export.SkipWhitespaceRun | components/DiagramEditor.tsx:59 | skipping across an all-whitespace prefix skips all of it |
| Export.CollapseConcat | components/DiagramEditor.tsx:59 | collapsing works piecewise across any boundary that does not split a whitespace run |
| Export.CollapseLeadingRun | components/DiagramEditor.tsx:59 | a leading whitespace run becomes exactly one `_` |
| Export.CollapseRun | components/DiagramEditor.tsx:59 | a maximal whitespace run between non-whitespace neighbours becomes exactly one `_` |
| Export.FilenameShape | components/DiagramEditor.tsx:59 | the filename has no whitespace. It is the collapsed title followed by `_` + format + `.` + format. |
| Export.SvgExportIsVerbatim | components/DiagramEditor.tsx:67-78 | SVG export saves the derived text exactly, with the SVG MIME type and the computed filename, whatever the element's size |
| Export.PdfZeroSizeFailsFirst | components/DiagramEditor.tsx:81-86 | with a zero width or height, PDF export fails with the size message. The rasteriser plays no part. |
| Export.PdfPageMatchesElement | components/DiagramEditor.tsx:89-103 | PDF export of a laid-out element is one page, in `px` units, of the element's size. It is landscape exactly when wider than tall. The page holds the rasteriser's PNG data URL for the element at that size, placed at (0, 0) and filling the page. |
| Export.PngHasNoSizeGuard | components/DiagramEditor.tsx:61-66 | PNG export has no size check: the rasteriser's result alone decides success or the alert |
| Export.DownloadFailureNamesCause | components/DiagramEditor.tsx:52-109 | with no preview nothing happens, and SVG export never fails. A PNG rasteriser error alerts `Download failed: ` plus that error's message. A PDF of a zero-sized element alerts the size message. A PDF whose rasterisation at the element's size fails alerts that error's message. |
| Export.ClipboardFailureIsGeneric | components/DiagramEditor.tsx:113-131 | copying reports success only when both the raster and the write succeed. Otherwise it shows one fixed message, whichever step failed. |
| Scenarios.ExtractTwoLongTokens | components/DiagramEditor.tsx:24-27 | two distinct 6-digit tokens in `#`-free surroundings are extracted as those two colours, in order |
| Scenarios.TwoLongTokenMatches | components/DiagramEditor.tsx:24-25 | two 6-digit tokens in `#`-free surroundings are the two matches |
| Scenarios.LongTokenThenHashFree | components/DiagramEditor.tsx:24-25 | a 6-digit token followed by `#`-free text yields one span and then the scan of what follows |
| Scenarios.TwoLongTokenScan | components/DiagramEditor.tsx:24-25 | the scan of two 6-digit tokens in `#`-free surroundings is their two spans |
| Scenarios.ExtractTwoShortTokens | components/DiagramEditor.tsx:24-27 | two distinct 3-digit tokens around a `#`-free separator that starts with a non-hex character are the two colours |
| Scenarios.TwoShortTokenMatches | components/DiagramEditor.tsx:24-25 | those two 3-digit tokens are the two matches |
| Scenarios.TwoShortTokenScan | components/DiagramEditor.tsx:24-25 | the scan of those two 3-digit tokens is their two spans |
| Scenarios.NoWordBoundary | components/DiagramEditor.tsx:24-25 | `#abcd` yields the colour `#abc`, since there is no word boundary |
| Scenarios.CaseSensitiveColors | components/DiagramEditor.tsx:27 | `#FFF` and `#fff` are two different colours |
| Scenarios.KeepsOtherTokenAndTail | components/DiagramEditor.tsx:41-42 | a different token of the key's length and shape, followed by text without the key's `#`, is left unchanged |
| Scenarios.ReplaceAfterStretch | components/DiagramEditor.tsx:41-42 | a stretch without `#`, then the key, then text the key no longer affects: only the key is replaced |
| Scenarios.ReplaceFirstOfTwo | components/DiagramEditor.tsx:41-42 | replacing the first of two distinct 6-digit tokens changes only that token |
| Scenarios.ReplaceWhole | components/DiagramEditor.tsx:41-42 | a text that is exactly the key becomes the replacement |
| Scenarios.KeepOtherToken | components/DiagramEditor.tsx:41-42 | a different token of the same length and shape is not touched |
| Scenarios.SubstituteTwo | components/DiagramEditor.tsx:38-43 | a two-entry map replaces the first key, then the second, the second acting on the first's output |
| Scenarios.ReplaceFirstToken | components/DiagramEditor.tsx:41-42 | in `x gap y`, replacing `x` changes only the first token |
| Scenarios.ReplaceSecondToken | components/DiagramEditor.tsx:41-42 | in `x gap y`, replacing `y` changes only the second token |
| Scenarios.ReplaceBothTokens | components/DiagramEditor.tsx:41-42 | in `x gap x`, replacing `x` changes both occurrences: the replacement is global |
| Scenarios.ReplaceBothTokensBeforeTail | components/DiagramEditor.tsx:41-42 | in `x gap x tail`, both occurrences are replaced and the tail is kept |
| Scenarios.DoubleSubstitution | components/DiagramEditor.tsx:38-43 | when one entry's value is a later entry's key, the text is substituted twice, and the result depends on the entries' order |
| Scenarios.DoubleSubstitutionExample | components/DiagramEditor.tsx:38-43 | the same on `#aaa #bbb` with the entries `#aaa→#bbb` and `#bbb→#ccc`, in both orders |
| Scenarios.ShortKeyRewritesLongToken | components/DiagramEditor.tsx:24-43 | in `#fff #ffffff` the colours are `#fff` and `#ffffff`. Recolouring `#fff` to `#000000` also rewrites the front of `#ffffff`. |
| Scenarios.ShortAndLongColors | components/DiagramEditor.tsx:24-27 | the colours of `#fff #ffffff` are `#fff` and `#ffffff` |
| Scenarios.ShortThenLongScan | components/DiagramEditor.tsx:24-25 | the matches of `#fff #ffffff` are `#fff` and `#ffffff` |
| Scenarios.ShortKeyEdit | components/DiagramEditor.tsx:38-43 | recolouring `#fff` to `#000000` in that text gives `#000000 #000000fff` |
| Scenarios.DiagramSvgColors | components/DiagramEditor.tsx:24-27 | the colours of the example diagram are its red and its green, in that order |
| Scenarios.DiagramSvgRecoloured | components/DiagramEditor.tsx:41-42 | replacing the red with blue in the example diagram gives the recoloured diagram |
| Scenarios.DiagramRecolourStep | components/DiagramEditor.tsx:36-49 | recolouring red to blue from the example diagram's identity map gives the recoloured diagram |
| Scenarios.RecolouredSvgDownload | components/DiagramEditor.tsx:59-78 | SVG export of the recoloured diagram titled `Diagram Title` saves it verbatim as `Diagram_Title_svg.svg` |
| Scenarios.TwoWordFilename | components/DiagramEditor.tsx:59 | two words joined by one space give `word_word_fmt.fmt` |
| Scenarios.TitleFilename | components/DiagramEditor.tsx:59 | `Diagram Title` as SVG gives `Diagram_Title_svg.svg` |
| Scenarios.SameColorEditedTwice | components/DiagramEditor.tsx:37-48 | after two edits of the same colour, the map holds the second value and the text is derived from the initial text. Replacing in the first edit's text would have changed nothing. |
| Scenarios.SingleTokenScan | components/DiagramEditor.tsx:24-27 | `#aaa` has the one colour `#aaa` |

## Left out

- HandleColorChange: requires its key to be a hex colour, which every colour the component offers is (components/DiagramEditor.tsx:203-216). For other keys the entry order and the replacement of JavaScript differ from the model: array-index keys such as `"1"` are enumerated before all others, and a key such as `.` or `(` is a regular expression that matches every character or throws.
- **Rasterisation.** `toPng` from `html-to-image` needs a layout engine. It is
  a function parameter that returns a data URL or an error message. The
  request records the target, `pixelRatio: 2`, `cacheBust` and the explicit
  size. Nothing is modelled about the image itself.
- **Saving files.** jsPDF internals, `Blob`, `URL.createObjectURL`, anchor
  clicks and `pdf.save` are browser calls. The model stops at the file it
  hands over: the filename, the payload and the MIME type, or the PDF's
  orientation, unit, page size and placed image.
- **The clipboard.** `fetch` of the data URL, `res.blob()` and
  `navigator.clipboard.write` are combined into one function parameter that
  either writes or rejects.
- **Asynchrony and logging.** `await` points, `console.log` and
  `console.error` are not modelled; each handler runs to completion.
- **React.** `useEffect` scheduling, `useRef` and JSX rendering are left out.
  Each effect is the synchronous recomputation after the state change it
  depends on. `initialSvgContent` is fixed for the life of an `Editor`, as it
  is for one mounted editor.
- **The colour input's display value.** `colorMap[color] || color` is only
  display logic, so it is not modelled beyond `Lookup`.
- **Regular-expression subtleties of the replacement.** The model treats the
  key as a literal pattern and the value as a literal replacement. Keys are
  hex tokens, which have no metacharacters, and values come from a colour
  picker, which gives no `$` patterns. `ReplaceAll` does handle an empty
  pattern as JavaScript does, although no key is empty.
- **Error values that are not `Error`s.** `String(err)` for such values is
  modelled as the cause string the rasteriser returns.
- **String width.** Strings are sequences of Unicode scalar values. JavaScript
  strings are UTF-16, which makes no difference to ASCII hex tokens and
  whitespace.
- **Out of scope.** The server actions in `app/actions.ts`, the pages, the
  diagram card, the Supabase client, type declarations and configuration are
  not part of this model. They are storage, network and presentation code.
