/**
 * The PDF analyzer. The file is read as Latin-1 text and searched for keywords;
 * the numbers it takes from the text (the first `/MediaBox` of section 7.7.3.3
 * of ISO 32000-1 and the font sizes of `Tf` operators, section 9.3, and of
 * `/FontSize` entries) are given to it already extracted.
 */
module Pdf {
  import opened Wrappers
  import opened ByteView
  import opened Report
  import opened Keywords
  import opened Policy

  /** A4 in points, used when the file has no MediaBox. */
  const DefaultWidthPt: real := 595.0
  const DefaultHeightPt: real := 842.0
  /** The resolution reported for every PDF, with status default. */
  const PdfDefaultDpi: int := 300
  /** Font sizes outside (0, 200) are ignored. */
  const MaxFontSize: real := 200.0

  function Abs(x: real): (y: real)
    ensures y >= 0.0 && (y == x || y == -x)
  {
    if x < 0.0 then -x else x
  }

  /** Page size: the extent of the first MediaBox, or A4. */
  function PageSize(mediaBox: Option<Box>): (d: Dimensions)
    ensures d.Points? && d.widthPt >= 0.0 && d.heightPt >= 0.0
    ensures mediaBox.None? ==> d == Points(DefaultWidthPt, DefaultHeightPt)
    ensures mediaBox.Some? ==> d.widthPt == Abs(mediaBox.value.urx - mediaBox.value.llx)
    ensures mediaBox.Some? ==> d.heightPt == Abs(mediaBox.value.ury - mediaBox.value.lly)
  {
    match mediaBox
    case None => Points(DefaultWidthPt, DefaultHeightPt)
    case Some(m) => Points(Abs(m.urx - m.llx), Abs(m.ury - m.lly))
  }

  /** The CMYK test: a device CMYK colour space, or an ICC-based one with "CMYK" somewhere in the file. */
  predicate SaysCmyk(text: string)
  {
    Contains(text, "/DeviceCMYK") || (Contains(text, "/ICCBased") && Contains(text, "CMYK"))
  }

  /** Colour space by first match: CMYK, then `/DeviceRGB`, then `/DeviceGray`. */
  function PdfColorSpace(text: string): (cs: ColorSpace)
    ensures cs == CMYK <==> SaysCmyk(text)
    ensures cs == RGB <==> !SaysCmyk(text) && Contains(text, "/DeviceRGB")
    ensures cs == Grayscale <==> !SaysCmyk(text) && !Contains(text, "/DeviceRGB") && Contains(text, "/DeviceGray")
  {
    if SaysCmyk(text) then CMYK
    else if Contains(text, "/DeviceRGB") then RGB
    else if Contains(text, "/DeviceGray") then Grayscale
    else Unknown
  }

  /** Position of a colour space in the detection order (earlier tests rank lower). */
  function ColorRank(cs: ColorSpace): nat
  {
    match cs
    case CMYK => 0
    case RGB => 1
    case Grayscale => 2
    case Unknown => 3
  }

  /**
   * More text can only move the PDF colour space earlier in the detection order:
   * a keyword found stays found, so an RGB file never becomes unknown.
   */
  lemma PdfColorSpaceMonotone(text: string, more: string)
    ensures ColorRank(PdfColorSpace(text + more)) <= ColorRank(PdfColorSpace(text))
  {
    var keys := ["/DeviceCMYK", "/ICCBased", "CMYK", "/DeviceRGB", "/DeviceGray"];
    forall k | 0 <= k < |keys| && Contains(text, keys[k])
      ensures Contains(text + more, keys[k])
    {
      ContainsExtend(text, more, keys[k]);
    }
    assert Contains(text, "/DeviceCMYK") ==> Contains(text + more, keys[0]);
    assert Contains(text, "/ICCBased") ==> Contains(text + more, keys[1]);
    assert Contains(text, "CMYK") ==> Contains(text + more, keys[2]);
    assert Contains(text, "/DeviceRGB") ==> Contains(text + more, keys[3]);
    assert Contains(text, "/DeviceGray") ==> Contains(text + more, keys[4]);
  }

  /** An ICC profile is taken to be present when the file has an ICC-based colour space or an output intent. */
  predicate PdfHasIcc(text: string)
  {
    Contains(text, "/ICCBased") || Contains(text, "/OutputIntent")
  }

  /** The profile name, looked for only when a profile is present. */
  function PdfProfile(text: string): (name: Option<IccName>)
    ensures name.Some? ==> PdfHasIcc(text)
    ensures PdfHasIcc(text) ==> name == IdentifyProfile(text, PdfTable)
    ensures name.Some? ==> name.value in {ISONewspaper, Euroestandar, SRGB, AdobeRGB}
  {
    if PdfHasIcc(text) then IdentifyProfile(text, PdfTable) else None
  }

  /** The sizes kept for the legibility test, in their original order: those in (0, 200). */
  function KeepFontSizes(sizes: seq<real>): (kept: seq<real>)
    ensures |kept| <= |sizes|
    ensures forall x :: x in kept <==> x in sizes && 0.0 < x < MaxFontSize
  {
    if |sizes| == 0 then []
    else
      var rest := KeepFontSizes(sizes[1..]);
      assert sizes == [sizes[0]] + sizes[1..];
      if 0.0 < sizes[0] < MaxFontSize then [sizes[0]] + rest else rest
  }

  /** The smallest element (`Math.min`). */
  function MinOf(s: seq<real>): (m: real)
    requires |s| > 0
    ensures m in s
    ensures forall x :: x in s ==> m <= x
  {
    if |s| == 1 then s[0]
    else
      var rest := MinOf(s[1..]);
      assert s == [s[0]] + s[1..];
      if s[0] <= rest then s[0] else rest
  }

  /** `Math.round(x * 10) / 10`: one decimal, halves rounded up. */
  function RoundTenth(x: real): (y: real)
    ensures x - 0.05 < y <= x + 0.05
    ensures (y * 10.0).Floor as real == y * 10.0
  {
    ((x * 10.0 + 0.5).Floor as real) / 10.0
  }

  /**
   * Legibility from the font sizes found in the text (`Tf` operands followed by
   * `/FontSize` entries): unknown (but legible) when none is in (0, 200),
   * otherwise legible exactly when the smallest is at least 6 points.
   */
  function FontReadability(sizes: seq<real>): (t: TextReadability)
    ensures t.status == LegibilityUnknown <==> forall x :: x in sizes ==> !(0.0 < x < MaxFontSize)
    ensures t.isLegible <==> forall x :: x in sizes ==> !(0.0 < x < MinFontSizeNewspaper)
    ensures t.status == NotLegible <==> !t.isLegible
    ensures t.status == Legible <==> t.isLegible && t.minFontSize.Some?
    ensures t.minFontSize.Some? <==> t.status != LegibilityUnknown
    ensures t.minFontSize.Some? ==>
      exists x :: (x in sizes && 0.0 < x < MaxFontSize && t.minFontSize.value == RoundTenth(x)
        && forall y :: y in sizes && 0.0 < y < MaxFontSize ==> x <= y)
  {
    var kept := KeepFontSizes(sizes);
    if |kept| == 0 then TextReadability(true, LegibilityUnknown, None)
    else
      var m := MinOf(kept);
      if m < MinFontSizeNewspaper then TextReadability(false, NotLegible, Some(RoundTenth(m)))
      else TextReadability(true, Legible, Some(RoundTenth(m)))
  }

  /** A single "4 Tf" makes the file illegible with a 4 point minimum. */
  lemma FourPointText()
    ensures FontReadability([4.0]) == TextReadability(false, NotLegible, Some(4.0))
  {
    assert KeepFontSizes([4.0]) == [4.0];
  }

  /**
   * The PDF analyzer. `mediaBox` is the first MediaBox, `tfOperands` the sizes in
   * front of `Tf` operators and `fontSizeEntries` the `/FontSize` values, in
   * order of appearance.
   */
  function AnalyzePdf(fileName: string, b: seq<Byte>, mediaBox: Option<Box>, tfOperands: seq<real>, fontSizeEntries: seq<real>): (r: AnalysisReport)
    ensures r.fileType == PDF && r.fileName == fileName && r.fileSize == |b|
    ensures r.dimensions == PageSize(mediaBox) && r.physicalDimensions.None?
    ensures r.resolution == Resolution(Dpi(PdfDefaultDpi), Default)
    ensures r.colorSpace == PdfColorSpace(Latin1(b))
    ensures r.hasIccProfile <==> PdfHasIcc(Latin1(b))
    ensures r.iccProfile == PdfProfile(Latin1(b))
    ensures r.textReadability == FontReadability(tfOperands + fontSizeEntries)
    ensures r.printability == PdfVerdict(r.colorSpace, r.hasIccProfile, r.iccProfile, r.textReadability.isLegible)
  {
    var text := Latin1(b);
    var cs := PdfColorSpace(text);
    var hasIcc := PdfHasIcc(text);
    var icc := PdfProfile(text);
    var readability := FontReadability(tfOperands + fontSizeEntries);
    AnalysisReport(
      fileName, PDF, |b|,
      PageSize(mediaBox), None,
      Resolution(Dpi(PdfDefaultDpi), Default),
      cs, hasIcc, icc,
      readability,
      PdfVerdict(cs, hasIcc, icc, readability.isLegible))
  }

  /** A ready PDF always carries a recommendation, the "ready to print" one. */
  lemma PdfReadyRecommends(fileName: string, b: seq<Byte>, mediaBox: Option<Box>, tfOperands: seq<real>, fontSizeEntries: seq<real>)
    ensures var r := AnalyzePdf(fileName, b, mediaBox, tfOperands, fontSizeEntries);
      r.printability.status == Ready ==> r.printability.recommendations == [ReadyToPrint]
  {
  }
}
