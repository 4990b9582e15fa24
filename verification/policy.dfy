/**
 * The printability policy: how each analyzer turns colour space, ICC profile,
 * resolution and text legibility into a status, issues and recommendations.
 * The four formats share the shape of the rules but not their triggers.
 */
module Policy {
  import opened Wrappers
  import opened Report

  /** Minimum resolution for newspaper printing. */
  const MinPrintDpi: nat := 200
  /** Below this resolution text in a raster image is taken to be unreadable. */
  const MinLegibleDpi: nat := 150
  /** Minimum font size for newspaper print legibility, in points. */
  const MinFontSizeNewspaper: real := 6.0

  /** Legibility of text in a raster image, judged from its resolution alone. */
  function RasterReadability(dpi: int): (t: TextReadability)
    ensures t.isLegible <==> dpi >= MinLegibleDpi
    ensures t.status == NotLegible <==> dpi < MinLegibleDpi
    ensures t.status == LegibilityWarning <==> MinLegibleDpi <= dpi < MinPrintDpi
    ensures t.status == Legible <==> dpi >= MinPrintDpi
    ensures t.minFontSize.None?
  {
    if dpi < MinLegibleDpi then TextReadability(false, NotLegible, None)
    else if dpi < MinPrintDpi then TextReadability(true, LegibilityWarning, None)
    else TextReadability(true, Legible, None)
  }

  /** Profile names accepted for raster files: the newsprint profiles or a generic CMYK profile. */
  predicate RasterOptimal(name: IccName)
  {
    name == ISONewspaper || name == Euroestandar || name == CMYKProfile
  }

  /** Profile names accepted for PDF files: the newsprint profiles only. */
  predicate PdfOptimal(name: IccName)
  {
    name == ISONewspaper || name == Euroestandar
  }

  /** The closing step every analyzer shares: a ready verdict with nothing to recommend gets the "ready" message. */
  function Conclude(status: Status, issues: seq<Issue>, recommendations: seq<Recommendation>, ready: Recommendation): (v: Verdict)
    ensures v.status == status && v.issues == issues
    ensures |recommendations| > 0 ==> v.recommendations == recommendations
    ensures |recommendations| == 0 ==> v.recommendations == (if status == Ready then [ready] else [])
    ensures ready !in recommendations ==> (v.recommendations == [ready] <==> status == Ready && recommendations == [])
  {
    Verdict(status, issues, if |recommendations| == 0 && status == Ready then [ready] else recommendations)
  }

  /** The JPEG rules. */
  function JpegVerdict(dpi: int, cs: ColorSpace, hasIcc: bool, icc: Option<IccName>): (v: Verdict)
    ensures v.status == Error <==> dpi < MinPrintDpi
    ensures v.status == Ready <==> dpi >= MinPrintDpi && cs != RGB && hasIcc && (icc.None? || RasterOptimal(icc.value))
    ensures v.status == Ready <==> v.recommendations == [ReadyToPrint]
    ensures v.status != Ready ==> |v.recommendations| > 0
  {
    var suboptimal := hasIcc && icc.Some? && !RasterOptimal(icc.value);
    var issues :=
      (if dpi < MinPrintDpi then [LowResolution(dpi)] else []) +
      (if cs == RGB then [RgbColor] else []) +
      (if !hasIcc then [MissingIcc] else if suboptimal then [SuboptimalIcc(icc.value)] else []) +
      (if !RasterReadability(dpi).isLegible then [LowResolutionText] else []);
    var recommendations :=
      (if dpi < MinPrintDpi then [IncreaseResolution] else []) +
      (if cs == RGB then [ConvertToCmykWithProfile] else []) +
      (if !hasIcc then [EmbedIcc] else if suboptimal then [ConvertProfile] else []);
    var status :=
      if dpi < MinPrintDpi then Error
      else if cs == RGB || |issues| > 0 then Warning
      else Ready;
    assert ReadyToPrint !in recommendations;
    Conclude(status, issues, recommendations, ReadyToPrint)
  }

  /**
   * The TIFF rules: an undetected colour space is an error on its own, and the
   * name of an embedded profile is not judged.
   */
  function TiffVerdict(dpi: int, cs: ColorSpace, hasIcc: bool): (v: Verdict)
    ensures v.status == Error <==> dpi < MinPrintDpi || cs == Unknown
    ensures v.status == Ready <==> dpi >= MinPrintDpi && (cs == CMYK || cs == Grayscale) && hasIcc
    ensures v.status == Ready <==> v.recommendations == [ReadyToPrint]
  {
    var issues :=
      (if dpi < MinPrintDpi then [LowResolution(dpi)] else []) +
      (if cs == RGB then [RgbColor] else if cs == Unknown then [UndetectedColor] else []) +
      (if !hasIcc then [MissingIcc] else []) +
      (if !RasterReadability(dpi).isLegible then [LowResolutionText] else []);
    var recommendations :=
      (if dpi < MinPrintDpi then [IncreaseResolution] else []) +
      (if cs == RGB then [ConvertToCmykWithProfile] else []) +
      (if !hasIcc then [EmbedIcc] else []);
    var status :=
      if dpi < MinPrintDpi || cs == Unknown then Error
      else if cs == RGB || |issues| > 0 then Warning
      else Ready;
    assert ReadyToPrint !in recommendations;
    Conclude(status, issues, recommendations, ReadyToPrint)
  }

  /** Each JPEG issue is reported exactly when its condition holds. */
  lemma JpegIssues(dpi: int, cs: ColorSpace, hasIcc: bool, icc: Option<IccName>)
    ensures var v := JpegVerdict(dpi, cs, hasIcc, icc);
      && (LowResolution(dpi) in v.issues <==> dpi < MinPrintDpi)
      && (RgbColor in v.issues <==> cs == RGB)
      && (MissingIcc in v.issues <==> !hasIcc)
      && (forall n :: SuboptimalIcc(n) in v.issues <==> hasIcc && icc == Some(n) && !RasterOptimal(n))
      && (LowResolutionText in v.issues <==> dpi < MinLegibleDpi)
      && UndetectedColor !in v.issues && SmallFontText !in v.issues
  {
  }

  /** Each TIFF issue is reported exactly when its condition holds; profile names are never judged. */
  lemma TiffIssues(dpi: int, cs: ColorSpace, hasIcc: bool)
    ensures var v := TiffVerdict(dpi, cs, hasIcc);
      && (LowResolution(dpi) in v.issues <==> dpi < MinPrintDpi)
      && (RgbColor in v.issues <==> cs == RGB)
      && (UndetectedColor in v.issues <==> cs == Unknown)
      && (MissingIcc in v.issues <==> !hasIcc)
      && (LowResolutionText in v.issues <==> dpi < MinLegibleDpi)
      && (forall n :: SuboptimalIcc(n) !in v.issues)
  {
  }

  /** Each JPEG recommendation is made exactly when its condition holds. */
  lemma JpegRecommendations(dpi: int, cs: ColorSpace, hasIcc: bool, icc: Option<IccName>)
    ensures var v := JpegVerdict(dpi, cs, hasIcc, icc);
      && (IncreaseResolution in v.recommendations <==> dpi < MinPrintDpi)
      && (ConvertToCmykWithProfile in v.recommendations <==> cs == RGB)
      && (EmbedIcc in v.recommendations <==> !hasIcc)
      && (ConvertProfile in v.recommendations <==> hasIcc && icc.Some? && !RasterOptimal(icc.value))
      && (ReadyToPrint in v.recommendations <==> v.status == Ready)
  {
  }

  /** The JPEG rules never give the advice meant for PDF and EPS files. */
  lemma JpegNeverRecommends(dpi: int, cs: ColorSpace, hasIcc: bool, icc: Option<IccName>)
    ensures var v := JpegVerdict(dpi, cs, hasIcc, icc);
      && ConvertToCmyk !in v.recommendations && EmbedIsoNewspaper !in v.recommendations
      && IncreaseFontSize !in v.recommendations && VerifyColorManually !in v.recommendations
      && VectorReadyToPrint !in v.recommendations
  {
  }

  /** Each TIFF recommendation is made exactly when its condition holds; no profile conversion is ever advised. */
  lemma TiffRecommendations(dpi: int, cs: ColorSpace, hasIcc: bool)
    ensures var v := TiffVerdict(dpi, cs, hasIcc);
      && (IncreaseResolution in v.recommendations <==> dpi < MinPrintDpi)
      && (ConvertToCmykWithProfile in v.recommendations <==> cs == RGB)
      && (EmbedIcc in v.recommendations <==> !hasIcc)
      && (ReadyToPrint in v.recommendations <==> v.status == Ready)
      && ConvertProfile !in v.recommendations && VerifyColorManually !in v.recommendations
      && ConvertToCmyk !in v.recommendations && EmbedIsoNewspaper !in v.recommendations
      && IncreaseFontSize !in v.recommendations && VectorReadyToPrint !in v.recommendations
  {
  }

  /**
   * A TIFF verdict can be an error with nothing recommended: an undetected colour
   * space adds an issue but no recommendation.
   */
  lemma TiffErrorWithoutRecommendation()
    ensures TiffVerdict(300, Unknown, true) == Verdict(Error, [UndetectedColor], [])
  {
  }

  /** The PDF rules. */
  function PdfVerdict(cs: ColorSpace, hasIcc: bool, icc: Option<IccName>, legible: bool): (v: Verdict)
    ensures v.status == Error <==> cs == RGB || cs == Unknown
    ensures v.status == Warning <==> cs != RGB && cs != Unknown && |v.issues| > 0
    ensures v.status == Ready <==> v.recommendations == [ReadyToPrint]
    ensures !legible ==> v.status != Ready
    ensures IncreaseFontSize in v.recommendations <==> !legible
  {
    var suboptimal := hasIcc && icc.Some? && !PdfOptimal(icc.value);
    var issues :=
      (if cs == RGB then [RgbColor] else if cs == Unknown then [UndetectedColor] else []) +
      (if !hasIcc then [MissingIcc] else if suboptimal then [SuboptimalIcc(icc.value)] else []) +
      (if !legible then [SmallFontText] else []);
    var recommendations :=
      (if cs == RGB then [ConvertToCmykWithProfile] else []) +
      (if !hasIcc then [EmbedIsoNewspaper] else if suboptimal then [ConvertProfile] else []) +
      (if !legible then [IncreaseFontSize] else []);
    var status :=
      if cs == RGB || cs == Unknown then Error
      else if !legible then Warning
      else if |issues| > 0 then Warning
      else Ready;
    assert ReadyToPrint !in recommendations;
    Conclude(status, issues, recommendations, ReadyToPrint)
  }

  /** Each PDF issue is reported exactly when its condition holds; the profile test accepts only the newsprint profiles. */
  lemma PdfIssues(cs: ColorSpace, hasIcc: bool, icc: Option<IccName>, legible: bool)
    ensures var v := PdfVerdict(cs, hasIcc, icc, legible);
      && (RgbColor in v.issues <==> cs == RGB)
      && (UndetectedColor in v.issues <==> cs == Unknown)
      && (MissingIcc in v.issues <==> !hasIcc)
      && (forall n :: SuboptimalIcc(n) in v.issues <==> hasIcc && icc == Some(n) && !PdfOptimal(n))
      && (SmallFontText in v.issues <==> !legible)
      && (forall d :: LowResolution(d) !in v.issues) && LowResolutionText !in v.issues
  {
  }

  /** Each PDF recommendation is made exactly when its condition holds. */
  lemma PdfRecommendations(cs: ColorSpace, hasIcc: bool, icc: Option<IccName>, legible: bool)
    ensures var v := PdfVerdict(cs, hasIcc, icc, legible);
      && (ConvertToCmykWithProfile in v.recommendations <==> cs == RGB)
      && (EmbedIsoNewspaper in v.recommendations <==> !hasIcc)
      && (ConvertProfile in v.recommendations <==> hasIcc && icc.Some? && !PdfOptimal(icc.value))
      && (IncreaseFontSize in v.recommendations <==> !legible)
      && (ReadyToPrint in v.recommendations <==> v.status == Ready)
  {
  }

  /** The PDF rules never advise a higher resolution, nor the advice meant for raster and EPS files. */
  lemma PdfNeverRecommends(cs: ColorSpace, hasIcc: bool, icc: Option<IccName>, legible: bool)
    ensures var v := PdfVerdict(cs, hasIcc, icc, legible);
      && IncreaseResolution !in v.recommendations && EmbedIcc !in v.recommendations
      && ConvertToCmyk !in v.recommendations && VerifyColorManually !in v.recommendations
      && VectorReadyToPrint !in v.recommendations
  {
  }

  /** The EPS rules: colour space alone decides, and an EPS file is never an error. */
  function EpsVerdict(cs: ColorSpace): (v: Verdict)
    ensures v.status == Warning <==> cs == RGB || cs == Unknown
    ensures v.status != Error
    ensures |v.recommendations| == 1
    ensures v.status == Ready <==> v.recommendations == [VectorReadyToPrint]
    ensures v.status == Ready <==> v.issues == []
  {
    var issues := if cs == RGB then [RgbColor] else if cs == Unknown then [UndetectedColor] else [];
    var recommendations :=
      if cs == RGB then [ConvertToCmyk] else if cs == Unknown then [VerifyColorManually] else [];
    var status := if cs == RGB || cs == Unknown then Warning else Ready;
    Conclude(status, issues, recommendations, VectorReadyToPrint)
  }

  /** Each EPS recommendation is made exactly when its colour space calls for it. */
  lemma EpsRecommendations(cs: ColorSpace)
    ensures var v := EpsVerdict(cs);
      && (ConvertToCmyk in v.recommendations <==> cs == RGB)
      && (VerifyColorManually in v.recommendations <==> cs == Unknown)
      && (VectorReadyToPrint in v.recommendations <==> cs == CMYK || cs == Grayscale)
      && (RgbColor in v.issues <==> cs == RGB)
      && (UndetectedColor in v.issues <==> cs == Unknown)
  {
  }
}
