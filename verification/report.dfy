/**
 * The print-fitness report every analyzer returns, and the attributes it is
 * built from. Issues and recommendations are tags: each stands for one of the
 * analyzers' (Spanish) messages, and the report's file type selects its wording.
 */
module Report {
  import opened Wrappers

  datatype FileType = PDF | JPG | TIFF | EPS

  datatype ColorSpace = RGB | CMYK | Grayscale | Unknown

  /** The profile names the analyzers can recognise in embedded ICC data. */
  datatype IccName = ISONewspaper | Euroestandar | SRGB | AdobeRGB | DisplayP3 | CMYKProfile

  datatype LegibilityStatus = Legible | LegibilityWarning | NotLegible | LegibilityUnknown

  /** `minFontSize` is the smallest font size found, in points (PDF only). */
  datatype TextReadability = TextReadability(isLegible: bool, status: LegibilityStatus, minFontSize: Option<real>)

  datatype Status = Ready | Warning | Error

  datatype Issue =
    | LowResolution(dpi: int)      // resolution below the 200 dpi minimum
    | RgbColor                     // the file is in RGB
    | UndetectedColor              // the colour space could not be determined
    | MissingIcc                   // no embedded ICC profile
    | SuboptimalIcc(name: IccName) // the embedded profile is not meant for newsprint
    | SmallFontText                // PDF text below the minimum font size
    | LowResolutionText            // raster text unreadable at this resolution

  datatype Recommendation =
    | IncreaseResolution           // resize or use a higher-resolution original
    | ConvertToCmykWithProfile     // convert to CMYK with ISONewspaper or Euroestándar
    | ConvertToCmyk                // convert to CMYK for printing (EPS wording)
    | EmbedIsoNewspaper            // embed ISONewspaper (PDF wording)
    | EmbedIcc                     // embed an appropriate ICC profile (raster wording)
    | ConvertProfile               // convert to ISONewspaper or Euroestándar
    | IncreaseFontSize             // raise fonts to at least 6 pt
    | VerifyColorManually          // check the colour space by hand (EPS)
    | ReadyToPrint                 // ready for newsprint
    | VectorReadyToPrint           // vector file ready for printing (EPS)

  /** Status, ordered issues and ordered recommendations. */
  datatype Verdict = Verdict(status: Status, issues: seq<Issue>, recommendations: seq<Recommendation>)

  /**
   * Pixel size for raster files; page size in PostScript points for vector files.
   * A TIFF size stored as a 32-bit LONG is read as a signed number, so pixel sizes are integers.
   */
  datatype Dimensions = Pixels(widthPx: int, heightPx: int) | Points(widthPt: real, heightPt: real)

  /** A rectangle given by its lower-left and upper-right corners, in points. */
  datatype Box = Box(llx: real, lly: real, urx: real, ury: real)

  /** What the millimetre size of a raster file is computed from, once resolution was detected. */
  datatype PhysicalDimensions = PhysicalDimensions(widthPx: int, heightPx: int, dpi: int)

  datatype ResolutionStatus = Detected | Default | Vector

  datatype ResolutionValue = Dpi(dpi: int) | VectorValue

  datatype Resolution = Resolution(value: ResolutionValue, status: ResolutionStatus)

  datatype AnalysisReport = AnalysisReport(
    fileName: string,
    fileType: FileType,
    fileSize: nat,
    dimensions: Dimensions,
    physicalDimensions: Option<PhysicalDimensions>,
    resolution: Resolution,
    colorSpace: ColorSpace,
    hasIccProfile: bool,
    iccProfile: Option<IccName>,
    textReadability: TextReadability,
    printability: Verdict)

  /** The fatal outcomes: a failed signature check, or a file extension no analyzer handles. */
  datatype AnalysisError = InvalidJpeg | InvalidTiff | UnsupportedFormat(extension: string)
}
