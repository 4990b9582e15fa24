/**
 * The host's choice of analyzer by file extension. The extension arrives
 * lower-cased and without its dot; the text-format analyzers receive the
 * numbers already extracted from the file's text.
 */
module Dispatch {
  import opened Wrappers
  import opened ByteView
  import opened Report
  import opened Pdf
  import opened Eps
  import opened Jpeg
  import opened Tiff

  /** The analyzer an extension selects, or the unsupported-format error. */
  function FormatOf(extension: string): (f: Result<FileType, AnalysisError>)
    ensures f == Success(PDF) <==> extension == "pdf"
    ensures f == Success(JPG) <==> extension == "jpg" || extension == "jpeg"
    ensures f == Success(TIFF) <==> extension == "tif" || extension == "tiff"
    ensures f == Success(EPS) <==> extension == "eps"
    ensures f.Failure? ==> f.error == UnsupportedFormat(extension)
  {
    if extension == "pdf" then Success(PDF)
    else if extension == "jpg" || extension == "jpeg" then Success(JPG)
    else if extension == "tif" || extension == "tiff" then Success(TIFF)
    else if extension == "eps" then Success(EPS)
    else Failure(UnsupportedFormat(extension))
  }

  /** What the text analyzers take from the file's text besides its bytes. */
  datatype TextNumbers = TextNumbers(
    mediaBox: Option<Box>,
    tfOperands: seq<real>,
    fontSizeEntries: seq<real>,
    boundingBox: Option<IntBox>,
    hiResBoundingBox: Option<Box>)

  /**
   * Analyzes one file: selects the analyzer by extension and runs it. A report,
   * when there is one, has the file type the extension selects.
   */
  method Analyze(extension: string, fileName: string, b: seq<Byte>, numbers: TextNumbers)
    returns (r: Result<AnalysisReport, AnalysisError>)
    ensures FormatOf(extension).Failure? ==> r == Failure(UnsupportedFormat(extension))
    ensures r.Success? ==> FormatOf(extension) == Success(r.value.fileType)
    ensures r.Success? ==> r.value.fileName == fileName && r.value.fileSize == |b|
    ensures FormatOf(extension) == Success(JPG) ==> (r.Failure? <==> !HasJpegSignature(b))
    ensures FormatOf(extension) == Success(TIFF) ==> (r.Failure? <==> !HasTiffMagic(b))
    ensures FormatOf(extension) == Success(PDF) || FormatOf(extension) == Success(EPS) ==> r.Success?
    ensures FormatOf(extension) == Success(PDF) ==>
      r == Success(AnalyzePdf(fileName, b, numbers.mediaBox, numbers.tfOperands, numbers.fontSizeEntries))
    ensures FormatOf(extension) == Success(EPS) ==>
      r == Success(AnalyzeEps(fileName, b, numbers.boundingBox, numbers.hiResBoundingBox))
    ensures FormatOf(extension) == Success(JPG) && r.Success? ==> r.value == JpegReport(fileName, b)
    ensures FormatOf(extension) == Success(TIFF) && r.Success? ==> r.value == TiffReport(fileName, b)
  {
    var format := FormatOf(extension);
    if format.Failure? {
      return Failure(format.error);
    }
    match format.value
    case PDF =>
      r := Success(AnalyzePdf(fileName, b, numbers.mediaBox, numbers.tfOperands, numbers.fontSizeEntries));
    case JPG =>
      r := AnalyzeJpg(b, fileName);
    case TIFF =>
      r := AnalyzeTiff(b, fileName);
    case EPS =>
      r := Success(AnalyzeEps(fileName, b, numbers.boundingBox, numbers.hiResBoundingBox));
  }
}
