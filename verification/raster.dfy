/**
 * What the JPEG and TIFF analyzers accumulate while they walk a file, and how
 * that state becomes a report: the resolution is the larger of the two axis
 * resolutions, and it counts as detected only if some metadata block set it.
 */
module Raster {
  import opened Wrappers
  import opened ByteView
  import opened Report
  import opened Policy

  /** The resolution assumed when no metadata gives one. */
  const DefaultDpi: int := 72

  /** The mutable locals of a raster analyzer. */
  datatype RasterState = RasterState(
    width: int,
    height: int,
    dpiX: int,
    dpiY: int,
    colorSpace: ColorSpace,
    hasIcc: bool,
    icc: Option<IccName>,
    dpiDetected: bool)

  /** While no resolution has been detected, both axes still hold the default. */
  predicate DefaultDpiKept(st: RasterState)
  {
    !st.dpiDetected ==> st.dpiX == DefaultDpi && st.dpiY == DefaultDpi
  }

  /** The reported resolution: the larger axis resolution. */
  function ReportedDpi(st: RasterState): (dpi: int)
    ensures dpi >= st.dpiX && dpi >= st.dpiY
    ensures dpi == st.dpiX || dpi == st.dpiY
  {
    Max(st.dpiX, st.dpiY)
  }

  /**
   * The report of a raster file: pixel size, resolution (detected or default),
   * physical size only when the resolution was detected, and the legibility
   * judged from the resolution.
   */
  function RasterReport(fileName: string, fileType: FileType, fileSize: nat, st: RasterState, printability: Verdict): (r: AnalysisReport)
    ensures r.resolution.value == Dpi(ReportedDpi(st))
    ensures r.resolution.status == Detected <==> st.dpiDetected
    ensures r.resolution.status == Default <==> !st.dpiDetected
    ensures r.physicalDimensions.Some? <==> st.dpiDetected
    ensures r.physicalDimensions.Some? ==> r.physicalDimensions.value == PhysicalDimensions(st.width, st.height, ReportedDpi(st))
    ensures r.dimensions == Pixels(st.width, st.height)
    ensures r.textReadability == RasterReadability(ReportedDpi(st))
    ensures r.colorSpace == st.colorSpace && r.hasIccProfile == st.hasIcc && r.iccProfile == st.icc
    ensures r.fileName == fileName && r.fileType == fileType && r.fileSize == fileSize
    ensures r.printability == printability
  {
    var dpi := ReportedDpi(st);
    AnalysisReport(
      fileName, fileType, fileSize,
      Pixels(st.width, st.height),
      if st.dpiDetected then Some(PhysicalDimensions(st.width, st.height, dpi)) else None,
      Resolution(Dpi(dpi), if st.dpiDetected then Detected else Default),
      st.colorSpace, st.hasIcc, st.icc,
      RasterReadability(dpi),
      printability)
  }

  /** A raster report whose resolution was not detected shows the 72 dpi default. */
  lemma DefaultResolutionReported(fileName: string, fileType: FileType, fileSize: nat, st: RasterState, printability: Verdict)
    requires DefaultDpiKept(st)
    ensures var r := RasterReport(fileName, fileType, fileSize, st, printability);
      r.resolution.status == Default ==> r.resolution.value == Dpi(DefaultDpi) && r.physicalDimensions.None?
  {
  }
}
