/**
 * The EPS analyzer. The file is read as Latin-1 text; the bounding boxes of the
 * `%%BoundingBox` and `%%HiResBoundingBox` comments (Adobe Document Structuring
 * Conventions 3.0) are given to it already extracted.
 */
module Eps {
  import opened Wrappers
  import opened ByteView
  import opened Report
  import opened Keywords
  import opened Policy
  import opened Pdf

  /** The integer `%%BoundingBox` corners. */
  datatype IntBox = IntBox(llx: int, lly: int, urx: int, ury: int)

  /** Page size: the high-resolution box when present, else the integer box, else 0 × 0. */
  function EpsSize(boundingBox: Option<IntBox>, hiRes: Option<Box>): (d: Dimensions)
    ensures d.Points? && d.widthPt >= 0.0 && d.heightPt >= 0.0
    ensures hiRes.Some? ==> d == PageSize(hiRes)
    ensures hiRes.None? && boundingBox.Some? ==>
      d.widthPt == Abs((boundingBox.value.urx - boundingBox.value.llx) as real)
      && d.heightPt == Abs((boundingBox.value.ury - boundingBox.value.lly) as real)
    ensures hiRes.None? && boundingBox.None? ==> d == Points(0.0, 0.0)
  {
    if hiRes.Some? then PageSize(hiRes)
    else match boundingBox
      case None => Points(0.0, 0.0)
      case Some(bb) => Points(Abs((bb.urx - bb.llx) as real), Abs((bb.ury - bb.lly) as real))
  }

  /** The CMYK, RGB and grey tests: a PostScript colour operator or a device colour space. */
  predicate SaysEpsCmyk(text: string) { Contains(text, "setcmykcolor") || Contains(text, "/DeviceCMYK") }
  predicate SaysEpsRgb(text: string) { Contains(text, "setrgbcolor") || Contains(text, "/DeviceRGB") }
  predicate SaysEpsGray(text: string) { Contains(text, "setgray") || Contains(text, "/DeviceGray") }

  /** Colour space by first match: CMYK, then RGB, then grey. */
  function EpsColorSpace(text: string): (cs: ColorSpace)
    ensures cs == CMYK <==> SaysEpsCmyk(text)
    ensures cs == RGB <==> !SaysEpsCmyk(text) && SaysEpsRgb(text)
    ensures cs == Grayscale <==> !SaysEpsCmyk(text) && !SaysEpsRgb(text) && SaysEpsGray(text)
  {
    if SaysEpsCmyk(text) then CMYK
    else if SaysEpsRgb(text) then RGB
    else if SaysEpsGray(text) then Grayscale
    else Unknown
  }

  /** More text can only move the EPS colour space earlier in the detection order. */
  lemma EpsColorSpaceMonotone(text: string, more: string)
    ensures ColorRank(EpsColorSpace(text + more)) <= ColorRank(EpsColorSpace(text))
  {
    var keys := ["setcmykcolor", "/DeviceCMYK", "setrgbcolor", "/DeviceRGB", "setgray", "/DeviceGray"];
    forall k | 0 <= k < |keys| && Contains(text, keys[k])
      ensures Contains(text + more, keys[k])
    {
      ContainsExtend(text, more, keys[k]);
    }
    assert Contains(text, "setcmykcolor") ==> Contains(text + more, keys[0]);
    assert Contains(text, "/DeviceCMYK") ==> Contains(text + more, keys[1]);
    assert Contains(text, "setrgbcolor") ==> Contains(text + more, keys[2]);
    assert Contains(text, "/DeviceRGB") ==> Contains(text + more, keys[3]);
    assert Contains(text, "setgray") ==> Contains(text + more, keys[4]);
    assert Contains(text, "/DeviceGray") ==> Contains(text + more, keys[5]);
  }

  /**
   * The EPS analyzer: vector content, so text is always legible, the resolution
   * is "Vector", and no ICC profile is ever reported.
   */
  function AnalyzeEps(fileName: string, b: seq<Byte>, boundingBox: Option<IntBox>, hiRes: Option<Box>): (r: AnalysisReport)
    ensures r.fileType == EPS && r.fileName == fileName && r.fileSize == |b|
    ensures r.dimensions == EpsSize(boundingBox, hiRes) && r.physicalDimensions.None?
    ensures r.resolution == Resolution(VectorValue, Vector)
    ensures r.colorSpace == EpsColorSpace(Latin1(b))
    ensures !r.hasIccProfile && r.iccProfile.None?
    ensures r.textReadability.isLegible && r.textReadability.status == Legible
    ensures r.printability.status == Warning <==> r.colorSpace == RGB || r.colorSpace == Unknown
    ensures r.printability.status != Error
    ensures r.printability == EpsVerdict(r.colorSpace)
  {
    var cs := EpsColorSpace(Latin1(b));
    AnalysisReport(
      fileName, EPS, |b|,
      EpsSize(boundingBox, hiRes), None,
      Resolution(VectorValue, Vector),
      cs, false, None,
      TextReadability(true, Legible, None),
      EpsVerdict(cs))
  }

  /** Both boxes present: the high-resolution one decides, e.g. 99.5 × 99.5 points rather than 100 × 100. */
  lemma HiResBoxWins()
    ensures EpsSize(Some(IntBox(0, 0, 100, 100)), Some(Box(0.0, 0.0, 99.5, 99.5))) == Points(99.5, 99.5)
  {
  }
}
