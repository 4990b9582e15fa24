# Newsprint preflight analyzers — a Dafny model

The application checks whether a PDF, JPEG, TIFF or EPS file is fit for
printing on newsprint. Each format has its own analyzer. An analyzer reads the
file's bytes and reports:

- the page or pixel size and the resolution (detected, the default, or "vector");
- the colour space and whether an ICC profile is embedded, with the profile's name when it is a known one;
- the legibility of the text;
- a printability verdict: `ready`, `warning` or `error`, with the issues found and recommendations.

This project models the analyzer engine in `docs/analyzers.js`:

- **JPEG:** the marker walk over the segments of the file (Annex B of ITU-T
  T.81), and the handlers for JFIF (APP0), EXIF (APP1), ICC profile (APP2),
  Photoshop image resource blocks (APP13) and start-of-frame segments.
- **TIFF:** the walk over the entries of the first image file directory.
- **PDF and EPS:** the keyword-based text analyzers.
- **Policy:** the per-format printability rules.
- **Helpers:** `bytesToString`, and the dispatch by file extension in `main.js`.

The application itself loads the other copy, `src/analyzers.js` (`main.js:6`).
That copy differs from `docs/analyzers.js` in several rules that change a result
for a well-formed file. Of these, only the precedence between JFIF and EXIF
densities is modelled beside the `docs` rule. The other differences in the
modelled analyzers are listed under "Left out".

Modules:

- `ByteView`: bytes and the JavaScript reads over them. An out-of-range byte
  reads as 0, which is what `undefined` becomes in a bitwise operation. Guarded
  16- and 32-bit reads return 0 near the end of the buffer. Signed 32-bit values
  are what `<<` and `|` produce. Also here: `Uint8Array.slice` with negative and
  clamped bounds, and `bytesToString`.
- `Rational`: exact ratios. They stand for the analyzers' divisions and for the
  multiplication by 2.54. `Math.round` is floor(x + ½).
- `Keywords`: `String.prototype.includes`, and the profile-name tables with
  their precedence.
- `Policy`: the verdict rules of the four formats.
- `Raster`: the state a raster walk accumulates, and the raster report.
- `Exif`, `Photoshop` and `Jpeg`: the JPEG analyzer.
- `Tiff`: the TIFF analyzer.
- `Pdf` and `Eps`: the text-format analyzers.
- `Dispatch`: the choice of analyzer by extension.

Where the code works step by step (the marker walk, its fill-byte loop, the
EXIF entry loop, the 8BIM scan, the TIFF entry loop, `bytesToString`), the model
is a method with a loop. Each such method is proved equal to a recursive
specification function. The lemmas state their properties about that function.

Where the text of the code and its documented intent differ, the model follows
the code:

- A TIFF verdict can be `error` with no recommendation, when the colour space is
  undetected: `Policy.TiffErrorWithoutRecommendation`.
- A PDF verdict can likewise be `error` with no recommendation, when the colour space is undetected and the profile and text raise nothing.
- The TIFF analyzer never judges the name of an embedded profile.
- A TIFF file whose byte-order mark is anything other than `II` is read
  big-endian.
- A TIFF file that sets resolution unit 3 but no resolution reports
  183 dpi as its "default" resolution: `Tiff.CentimetreOnlyReportsDefault183`.

## Model

| member | source | states |
|---|---|---|
| ByteView.At | docs/analyzers.js:208 | a byte inside the buffer is read as is; outside it reads as 0 (`undefined` in a bitwise expression) |
| ByteView.BE16 | docs/analyzers.js:208 | the unguarded big-endian 16-bit read is below 2^16 and agrees with the guarded read wherever both bytes exist |
| ByteView.BE32 | docs/analyzers.js:440-441 | the unsigned big-endian 32-bit read is below 2^32 and agrees with the guarded read wherever all four bytes exist |
| ByteView.ReadU16 | docs/analyzers.js:596-601 | the guarded 16-bit read of either byte order is below 2^16 and is 0 when `pos + 1` reaches the end |
| ByteView.ReadU32 | docs/analyzers.js:603-608 | the guarded 32-bit read is below 2^32 and is 0 when `pos + 3` reaches the end |
| ByteView.ToInt32 | docs/analyzers.js:440-441 | the result of `<< 24 \| …` is the 32-bit word read as a signed two's-complement value |
| ByteView.ReadI32 | docs/analyzers.js:603-608 | the TIFF 32-bit read as JavaScript evaluates it: the unsigned word, less 2^32 when the top bit is set |
| ByteView.ReadU16RoundTrip | docs/analyzers.js:596-601 | writing a 16-bit value in either byte order and reading it back at the same place gives the value, whatever surrounds it |
| ByteView.ReadU32RoundTrip | docs/analyzers.js:603-608 | the same round trip for 32-bit values |
| ByteView.RelativeIndex | docs/analyzers.js:28 | a `slice` bound is clamped to the length, and a negative one counts from the end |
| ByteView.Slice | docs/analyzers.js:28 | `slice(start, end)` is the ordinary subsequence for in-range bounds; in general its length and every element follow from the resolved bounds |
| ByteView.Latin1RoundTrip | docs/analyzers.js:27-34 | decoding bytes one character per byte loses nothing: encoding the text back gives the bytes |
| ByteView.BytesToString | docs/analyzers.js:27-34 | the loop builds the Latin-1 text of the slice, one character per byte |
| Rational.Scale254 | docs/analyzers.js:705-708 | multiplying by 2.54 is exact: num/den × 254/100 |
| Rational.Round | docs/analyzers.js:654 | `Math.round` of a ratio is the integer r with r ≤ x + ½ < r + 1 |
| Rational.RoundOfInteger | docs/analyzers.js:654 | rounding an integer gives the integer back |
| Rational.RoundUnique | docs/analyzers.js:654 | any integer meeting the rounding bounds is the rounded value |
| Rational.RoundInDpiRange | docs/analyzers.js:358-366 | a resolution accepted in [1, 10000] rounds to an integer in [1, 10000] |
| Rational.RoundScaledInRange | docs/analyzers.js:463-471 | a resolution in [1, 10000] given per centimetre rounds, after × 2.54, to an integer in [3, 25400] |
| Keywords.ContainsIff | docs/analyzers.js:59 | `includes` holds exactly when the keyword occurs at some index of the text |
| Keywords.ContainsExtend | docs/analyzers.js:59-65 | a keyword found in a text is still found once more text follows |
| Keywords.MentionsCases | docs/analyzers.js:392-403 | which spellings name each profile in each table: PDF knows only "AdobeRGB" and no Display P3 or CMYK; JPEG and TIFF also accept "Adobe RGB"; only JPEG knows Display P3 and CMYK |
| Keywords.IdentifyProfileIsFirstMention | docs/analyzers.js:392-403 | no name is reported exactly when no profile is mentioned; a reported name is mentioned, and no profile earlier in the precedence order is |
| Policy.RasterReadability | docs/analyzers.js:511-521 | text is not legible below 150 dpi, a warning from 150 up to 200, legible from 200 |
| Policy.Conclude | docs/analyzers.js:556-558 | the "ready" recommendation is added exactly when the verdict is ready and nothing else was recommended |
| Policy.JpegVerdict | docs/analyzers.js:524-558 | error exactly below 200 dpi; ready exactly at 200 dpi or more with a non-RGB colour space and an embedded profile whose name, if known, is ISONewspaper, Euroestándar or CMYK Profile; ready exactly when the sole recommendation is "ready to print"; otherwise there is always a recommendation |
| Policy.JpegIssues | docs/analyzers.js:527-548 | each JPEG issue is listed exactly when its condition holds |
| Policy.JpegRecommendations | docs/analyzers.js:527-558 | a higher resolution is advised exactly below 200 dpi, conversion to CMYK exactly for RGB, embedding a profile exactly without one, converting the profile exactly for a name other than ISONewspaper, Euroestándar or CMYK Profile, "ready to print" exactly when ready |
| Policy.JpegNeverRecommends | docs/analyzers.js:527-558 | the advice for PDF and EPS files is never given |
| Policy.TiffVerdict | docs/analyzers.js:728-761 | error exactly below 200 dpi or with an undetected colour space; ready exactly at 200 dpi or more, CMYK or greyscale, with a profile |
| Policy.TiffIssues | docs/analyzers.js:731-750 | each TIFF issue is listed exactly when its condition holds; a profile's name is never an issue |
| Policy.TiffRecommendations | docs/analyzers.js:731-761 | a higher resolution exactly below 200 dpi, conversion to CMYK exactly for RGB, embedding a profile exactly without one, "ready to print" exactly when ready; no profile conversion is ever advised |
| Policy.TiffErrorWithoutRecommendation | docs/analyzers.js:736-761 | an undetected colour space at 300 dpi with a profile gives an error with one issue and no recommendation |
| Policy.PdfVerdict | docs/analyzers.js:126-160 | error exactly for RGB or an undetected colour space; a warning exactly when otherwise some issue is listed; illegible text is never ready; the font-size recommendation appears exactly for illegible text; ready exactly when the sole recommendation is "ready to print" |
| Policy.PdfIssues | docs/analyzers.js:129-147 | each PDF issue is listed exactly when its condition holds; a profile name other than ISONewspaper or Euroestándar is an issue |
| Policy.PdfRecommendations | docs/analyzers.js:129-160 | conversion to CMYK exactly for RGB, embedding ISO Newspaper exactly without a profile, converting the profile exactly for a name other than ISONewspaper or Euroestándar, a larger font exactly for illegible text, "ready to print" exactly when ready |
| Policy.PdfNeverRecommends | docs/analyzers.js:129-160 | a higher resolution and the raster and EPS advice are never given |
| Policy.EpsVerdict | docs/analyzers.js:833-852 | never an error; a warning exactly for RGB or an undetected colour space; always exactly one recommendation |
| Policy.EpsRecommendations | docs/analyzers.js:833-852 | conversion to CMYK exactly for RGB, manual verification exactly for an undetected colour space, "ready to print" for vector exactly for CMYK or greyscale |
| Raster.ReportedDpi | docs/analyzers.js:506 | the reported resolution is the larger of the two axes |
| Raster.RasterReport | docs/analyzers.js:560-584 | the resolution is detected or default as the walk found it; the physical size is present exactly when it was detected; legibility follows the reported resolution |
| Raster.DefaultResolutionReported | docs/analyzers.js:569-580 | a walk that left both axes at 72 dpi and detected nothing reports 72 dpi, default, and no physical size |
| Exif.ExifDirectory | docs/analyzers.js:273-315 | the EXIF header is accepted exactly when it has the `Exif\0\0` signature, an `II` or `MM` mark, the magic number 42, a first-directory offset below 65536 that lies inside the segment, and 1 to 199 entries; the directory found is at that offset, in that byte order, with that count |
| Exif.ExifEntry | docs/analyzers.js:317-347 | a SHORT ResolutionUnit entry sets the unit; an XResolution or YResolution entry records its accepted rational on its own axis, and an unaccepted one changes nothing; every other tag changes nothing |
| Exif.AcceptedRational | docs/analyzers.js:331-346 | a resolution entry is taken exactly when it is one RATIONAL stored inside the segment at an offset below 65536 with positive parts and a quotient in [1, 10000], and it is that quotient |
| Exif.SingleXResolution | docs/analyzers.js:316-367 | a directory whose one entry is an accepted XResolution collects that value alone and sets the horizontal resolution to it rounded, marked detected |
| Exif.ExifEntriesValid | docs/analyzers.js:316-348 | every resolution the entry loop records is in [1, 10000] |
| Exif.ScanEntries | docs/analyzers.js:316-348 | the entry loop, with its early exit at the segment's end, computes the recursive entry walk |
| Exif.ExifDpi | docs/analyzers.js:350-366 | without unit 3 a recorded resolution is its value rounded; with unit 3 it is the value × 2.54 rounded, and it is kept exactly when the scaled value is in [1, 10000] |
| Exif.ApplyExif | docs/analyzers.js:350-367 | an EXIF resolution, once converted and accepted, overrides the axis it names and marks the resolution detected; an axis without one keeps its value; nothing else changes |
| Exif.ExifSegment | docs/analyzers.js:273-375 | an APP1 segment with a valid header applies what the entry loop over its directory collects; without one it changes nothing |
| Exif.ExifHandler | docs/analyzers.js:273-375 | the handler with its loop computes the segment's effect |
| Exif.ApplyExifJfifFirst | src/analyzers.js:275-284 | the alternative precedence: a resolution already detected by JFIF is kept, otherwise EXIF applies as usual |
| Exif.PrecedenceDiffers | src/analyzers.js:275-284 | with JFIF at 300 dpi and EXIF at 600 dpi, one rule reports 600 and the other 300 |
| Photoshop.ClearLowBit | docs/analyzers.js:435 | `x & ~1` is x rounded down to an even number |
| Photoshop.PaddingFormulasAgree | src/analyzers.js:338 | the two name-padding formulas agree: the length byte and name are padded to an even length |
| Photoshop.BlockStep | docs/analyzers.js:422-479 | a step of the 8BIM scan stops near the segment's end or when the size field passes it, moves one byte on without a block signature, finds a ResolutionInfo block exactly when its 16 data bytes fit, at the data after the size field, and otherwise (corrected) moves past the data padded to an even length |
| Photoshop.SizePos | docs/analyzers.js:432-437 | the size field follows the signature, the id and the padded name: 8 to 263 bytes after the block start |
| Photoshop.ResolutionBlock | docs/analyzers.js:422-479 | a found resolution block's 16 data bytes lie inside the segment; a fitting ResolutionInfo block where the scan stands is found, at its data |
| Photoshop.ResolutionBlockFound | docs/analyzers.js:422-479 | whatever the scan reports is the data of a ResolutionInfo block at or after where it started |
| Photoshop.ScanSkipsNonBlocks | docs/analyzers.js:422-428 | bytes that start no block are passed over: the scan finds what the scan from the next possible block start finds |
| Photoshop.FirstBlockFound | docs/analyzers.js:422-479 | a fitting ResolutionInfo block preceded only by bytes that start no block is the one the scan finds |
| Photoshop.ScanMakesProgress | docs/analyzers.js:478-479 | the corrected scan moves at least one byte, and at least past the block header after a block |
| Photoshop.AsWrittenScanCycles | docs/analyzers.js:440-441 | on `LoopingPayload`, whose block at 4 has size FF FF FF F0 (−16 read signed), the scan as written steps 0, 1, 2, 3, 4 and then back to 0, so it never ends |
| Photoshop.BlockAtFourGoesBack | docs/analyzers.js:478-479 | the block in that payload, with size bytes FF FF FF F0, moves the scan as written from 4 back to 0 |
| Photoshop.StepsAgreeOnSmallSizes | docs/analyzers.js:440-441 | for block sizes below 2^31 - 1 the scan as written and the corrected scan take the same step |
| Photoshop.CorrectedScanEnds | docs/analyzers.js:422-479 | on the payload where the scan as written cycles, the corrected scan ends and finds nothing |
| Photoshop.AsWrittenScanStalls | docs/analyzers.js:440-441 | a block with an empty name and size FF FF FF F4 (−12 read signed) keeps the scan as written at its own offset |
| Photoshop.LargestPositiveSizeGoesBack | docs/analyzers.js:440-441 | a size of 7FFF FFFF, top bit clear, still overflows at `size + 1` and sends the scan as written back by 2^31 |
| Photoshop.MinusOneSizeStepsIntoData | docs/analyzers.js:440-441 | a non-ResolutionInfo block of size FF FF FF FF (−1 read signed) moves the scan as written only to the start of its own data, not past it |
| Photoshop.SkippingBlockHeader | docs/analyzers.js:424-437 | in `SkippingPayload` the block at 4 has the 8BIM signature, id 0x0404 and an empty name, so its size field is at 12 |
| Photoshop.SkippingBlockSize | docs/analyzers.js:440-441 | the size field of that block holds FF FF FF FF |
| Photoshop.AsWrittenStepsIntoData | docs/analyzers.js:440-479 | the scan as written moves from that block at 4 to 16, inside what the unsigned size makes its data |
| Photoshop.LaterBlockFits | docs/analyzers.js:424-445 | at 16 the scan finds a ResolutionInfo block whose 16 data bytes fit, with data at 28 |
| Photoshop.LaterBlockHolds300Dpi | docs/analyzers.js:446-473 | that block's data gives 300 dpi on both axes and marks the resolution detected |
| Photoshop.CorrectedStepLeavesPayload | docs/analyzers.js:478-479 | read unsigned, the size at 12 moves the scan past the end of `SkippingPayload` |
| Photoshop.CorrectedScanMissesLaterBlock | docs/analyzers.js:422-479 | so the corrected scan over `SkippingPayload` finds no ResolutionInfo block |
| Photoshop.AsWrittenFindsLaterBlock | docs/analyzers.js:422-479 | on `SkippingPayload` the scan as written ends by finding the ResolutionInfo block at 16, whose data sets 300 dpi on both axes, while the corrected scan finds no block there |
| Photoshop.ScanResolutionBlocks | docs/analyzers.js:422-479 | the scanning loop finds exactly the block the recursive scan finds |
| Photoshop.FixedDpi | docs/analyzers.js:455-471 | a 16.16 fixed-point resolution is used exactly when it is in [1, 10000]; it is then the value rounded, or the value × 2.54 rounded when given per centimetre |
| Photoshop.FixedDpiExamples | docs/analyzers.js:455-471 | 300 pixels per inch gives 300 dpi, and 118 pixels per centimetre gives 300 dpi |
| Photoshop.ApplyResolutionInfo | docs/analyzers.js:445-474 | each axis becomes its accepted fixed-point value converted with the horizontal unit, or keeps its value; detection is set exactly when an axis is accepted; nothing else changes |
| Photoshop.PhotoshopSegment | docs/analyzers.js:409-481 | an APP13 segment is ignored once a resolution is detected; otherwise, with the signature and a ResolutionInfo block found by the scan, it applies that block, and without either it changes nothing |
| Photoshop.PhotoshopHandler | docs/analyzers.js:409-481 | the handler with its loop computes the segment's effect |
| Jpeg.SkipFill | docs/analyzers.js:218-220 | fill skipping stops on the last FF of the run before a marker code, and every byte it passes is FF |
| Jpeg.JpegStep | docs/analyzers.js:210-244 | each pass of the walk moves forward; a byte other than FF is skipped; after the fill bytes EOI stops, a standalone marker or a length below 2 is stepped over, and any other marker is a segment whose payload follows its 4-byte header, clipped to the buffer, with the walk resuming at its declared end |
| Jpeg.JfifDensityY | docs/analyzers.js:254-264 | the vertical density, or the horizontal one when it is zero |
| Jpeg.ApplyJfif | docs/analyzers.js:247-267 | with the `JFIF\0` signature, unit 1 or 2 and an X density in (0, 10000], APP0 sets both axes (unit 2 scaled by 2.54) and marks them detected, whatever was detected before; otherwise it changes nothing |
| Jpeg.ApplyIcc | docs/analyzers.js:381-406 | APP2 with the ICC signature marks a profile present; a known name in its data becomes the profile name, otherwise the old one stays |
| Jpeg.ApplySof | docs/analyzers.js:485-500 | a start-of-frame segment of six bytes or more sets height and width, and 1, 3 or 4 components set greyscale, RGB or CMYK |
| Jpeg.ApplySegment | docs/analyzers.js:247-500 | segments other than APP0, APP1, APP2, APP13 and start-of-frame change nothing, and APP13 changes nothing once a resolution is detected |
| Jpeg.WalkKeepsDetection | docs/analyzers.js:210-503 | once a resolution is detected it stays detected to the end of the walk |
| Jpeg.WalkKeepsDefault | docs/analyzers.js:210-503 | while nothing is detected, both axes stay at 72 dpi |
| Jpeg.JpegDefaultResolution | docs/analyzers.js:569-580 | a JPEG reported with the default status is reported at 72 dpi with no physical size |
| Jpeg.EmptyWalk | docs/analyzers.js:186-210 | a file that ends right after the signature keeps the initial state: 72 dpi, RGB, no profile |
| Jpeg.JfifExampleSteps | docs/analyzers.js:210-244 | on a small file the walk finds the JFIF segment, then the frame, then stops at EOI |
| Jpeg.JfifExampleSegments | docs/analyzers.js:247-267 | on that file JFIF sets 300 dpi on both axes and the frame sets 1000 × 2000 pixels |
| Jpeg.JfifExampleWalk | docs/analyzers.js:210-503 | the walk over that file ends with 300 dpi detected on both axes and a 1000 × 2000 frame |
| Jpeg.JfifExampleReport | docs/analyzers.js:560-584 | that file is reported at 300 dpi detected, 1000 × 2000, RGB, with a physical size, as a warning |
| Jpeg.AnalyzeJpg | docs/analyzers.js:186-584 | a file without FF D8 is rejected as invalid, any other is walked by the loop and reported as the recursive walk specifies |
| Jpeg.NextStep | docs/analyzers.js:210-244 | the loop body with its fill-byte loop takes exactly the step of the walk |
| Jpeg.HandleSegment | docs/analyzers.js:247-500 | the handlers, those with loops included, compute the segment's effect |
| Jpeg.IccHandler | docs/analyzers.js:381-406 | decoding the profile bytes to text and matching names computes the APP2 effect |
| Tiff.Photometric | docs/analyzers.js:675-680 | photometric values 0 and 1 mean greyscale, 2 RGB, 5 CMYK; other values keep the colour space |
| Tiff.ResolutionValue | docs/analyzers.js:648-667 | a resolution is its signed numerator over its signed denominator rounded, or 72 when the denominator is not positive |
| Tiff.TiffEntry | docs/analyzers.js:629-702 | ImageWidth and ImageLength set the size, PhotometricInterpretation the colour space, ResolutionUnit the unit; a resolution entry whose value lies in the file sets its own axis and marks it detected, one outside changes nothing; the ICC tag is the ICC entry; every other tag changes nothing |
| Tiff.EntryInteger | docs/analyzers.js:637-645 | a SHORT size is read as 16 bits, any other type as a signed 32-bit value |
| Tiff.IccEntry | docs/analyzers.js:683-701 | an ICC entry marks a profile present whatever its data; a known name in at most 500 bytes of its data becomes the profile name, otherwise the old one stays |
| Tiff.EntryCap | docs/analyzers.js:629 | entries beyond the hundredth are never read |
| Tiff.EntriesKeepDefault | docs/analyzers.js:629-702 | while nothing is detected, the entry walk leaves both axes at 72 dpi |
| Tiff.ApplyUnit | docs/analyzers.js:704-708 | unit 3 multiplies both resolutions by 2.54 and rounds them; any other unit changes nothing |
| Tiff.DefaultInCentimetres | docs/analyzers.js:705-708 | the 72 dpi default scaled as centimetres rounds to 183 |
| Tiff.TiffDefaultResolution | docs/analyzers.js:704-789 | a TIFF reported with the default status is at 183 dpi when its unit is centimetres and at 72 dpi otherwise |
| Tiff.CentimetreOnlyReportsDefault183 | docs/analyzers.js:704-708 | a file with only a unit-3 entry is reported at 183 dpi with the default status |
| Tiff.HandleEntry | docs/analyzers.js:630-702 | the loop body computes one entry's effect |
| Tiff.IccEntryHandler | docs/analyzers.js:683-701 | decoding the profile bytes to text and matching names computes the ICC entry's effect |
| Tiff.AnalyzeTiff | docs/analyzers.js:589-789 | a file without the magic number 42 is rejected as invalid, any other is walked by the capped entry loop and reported as the recursive walk specifies |
| Pdf.PageSize | docs/analyzers.js:44-51 | the page is the extent of the first MediaBox, or A4 (595 × 842 points) without one |
| Pdf.PdfColorSpace | docs/analyzers.js:57-65 | CMYK, RGB and grey are tested in that order, each exactly when no earlier test matched |
| Pdf.PdfColorSpaceMonotone | docs/analyzers.js:57-65 | more text can only move the colour space earlier in the detection order |
| Pdf.PdfProfile | docs/analyzers.js:68-81 | a profile name is looked for only when an ICC-based colour space or output intent is present, and is one of the four names the PDF table knows |
| Pdf.KeepFontSizes | docs/analyzers.js:86-107 | the kept sizes are exactly those in (0, 200) |
| Pdf.MinOf | docs/analyzers.js:110 | `Math.min` is an element no larger than any other |
| Pdf.RoundTenth | docs/analyzers.js:111 | rounding to one decimal gives a whole number of tenths within 0.05 of the value |
| Pdf.FontReadability | docs/analyzers.js:86-123 | unknown exactly when no size is in (0, 200); legible exactly when none is in (0, 6); the reported minimum is the smallest kept size, rounded |
| Pdf.FourPointText | docs/analyzers.js:109-118 | a single 4-point font makes the text illegible with a 4-point minimum |
| Pdf.AnalyzePdf | docs/analyzers.js:40-183 | the report: default 300 dpi, page size, colour space, profile and legibility as above, and the PDF verdict over them |
| Pdf.PdfReadyRecommends | docs/analyzers.js:158-160 | a ready PDF's only recommendation is "ready to print" |
| Eps.EpsSize | docs/analyzers.js:796-810 | the high-resolution box wins over the integer one; without either the size is 0 × 0 |
| Eps.EpsColorSpace | docs/analyzers.js:816-824 | CMYK, RGB and grey operators or spaces are tested in that order |
| Eps.EpsColorSpaceMonotone | docs/analyzers.js:816-824 | more text can only move the colour space earlier in the detection order |
| Eps.AnalyzeEps | docs/analyzers.js:792-874 | vector resolution, always legible, never a profile, a warning exactly for RGB or undetected colour, never an error |
| Eps.HiResBoxWins | docs/analyzers.js:806-810 | with both boxes present, 99.5 × 99.5 points are reported rather than 100 × 100 |
| Dispatch.FormatOf | main.js:61-78 | pdf, jpg/jpeg, tif/tiff and eps select their analyzers; any other extension is unsupported |
| Dispatch.Analyze | main.js:55-78 | an unsupported extension is an error; a JPEG or TIFF fails exactly when its signature check fails and otherwise reports exactly `JpegReport`/`TiffReport`; PDF and EPS always produce exactly the report of their analyzer (the analyzers `main.js:6` loads are those of `src/analyzers.js`, modelled here from `docs/analyzers.js`) |

## Left out

- Reading files, the Electron window, the IPC bridge in `preload.js`, and the error-message plumbing of `main.js`. The model begins with the bytes and the lower-cased extension.
- The regular expressions that take numbers out of PDF and EPS text (`/MediaBox`, `Tf` operands, `/FontSize`, `%%BoundingBox`, `%%HiResBoundingBox`), and `parseFloat`/`parseInt`. Their results are inputs of `Pdf.AnalyzePdf` and `Eps.AnalyzeEps`.
- `formatFileSize`, `pxToMm` and the points-to-millimetres conversion. Reports carry the byte count, the size in points, and the pixel size with the dpi it was measured at.
- The Spanish message strings and `details` arrays. Issues and recommendations are enumerations, one per message.
- Floating point. Divisions and the factor 2.54 are exact ratios. A value whose binary approximation lands on the other side of a rounding or range boundary is not modelled.
- `dpiSource`, which is set but never reported.
- `Photoshop.BlockStep`: the scan as written is modelled for one step only, because a cycle cannot be written as a terminating function. The rest of the model uses the corrected scan (see Findings). On inputs where the scan as written ends, because a size from FF FF FF F5 to FF FF FF FF moves it forward by less than the data, the corrected scan can find a different block or none: `Photoshop.AsWrittenFindsLaterBlock` shows a payload where the analyzer reports 300 dpi and the model keeps 72.
- `Tiff.ResolutionValue`: a negative numerator over a positive denominator is rounded as an exact rational, with halves rounded up as `Math.round` does; the double it would be in JavaScript is not modelled.
- The other differences of `src/analyzers.js`, the copy `main.js:6` loads, from `docs/analyzers.js`. Each can change a result, and none is modelled:
  - JFIF (src/analyzers.js:201-216): the test is on `JFIF` without the NUL byte, there is no range check on the density and no fallback from a zero Y density to X, and unit 0 still copies both densities into the axes without marking them detected;
  - ICC (src/analyzers.js:300-311): the name table has no Display P3, so a Display P3 profile is named by a later entry or not at all;
  - Photoshop (src/analyzers.js:339-358): `dataStart` is the size field, the horizontal resolution is read at `dataStart + 4` (the data) and the vertical one at `dataStart + 10`, which is data + 6 rather than data + 8;
  - TIFF (src/analyzers.js:532): the entry loop has no cap of 100 entries (`Tiff.EntryCap` states the cap of the `docs` copy);
  - EXIF range check (src/analyzers.js:255-283): a density is stored without the 1 to 10000 check and checked only after the ×2.54 conversion, so XResolution 1/2 with ResolutionUnit 3 gives 1 dpi, detected, where the `docs` copy (`Exif.AcceptedRational`) keeps the 72 dpi default;
  - EXIF reads (src/analyzers.js:226-235): the 32-bit reads are signed (no `>>> 0`), so a numerator or denominator with its top bit set is rejected as non-positive; the reads have no bounds checks;
  - EXIF header and entries (src/analyzers.js:220-262): no check of the `II`/`MM` mark, the magic number 42, the entry type and count, the 65536 offset limit or the 200 entry limit, and no stop at the segment's end;
  - TIFF resolution entries (src/analyzers.js:549-562): no check that the value lies inside the file, so an XResolution or YResolution stored past the end is marked detected at 72 dpi where the `docs` copy (`Tiff.TiffEntry`) ignores it;
  - JPEG segments (src/analyzers.js:198, 405): no skipping of fill bytes and no step over a declared length below 2, which `Jpeg.JpegStep` models;
  - 8BIM search (src/analyzers.js:327-384): the search stops at the first 0x03ED block even when its data does not fit in the segment, where `Photoshop.ResolutionBlock` goes on to the next block.

  Only its JFIF-first precedence is modelled (`Exif.ApplyExifJfifFirst`).
- `try`/`catch` around the EXIF and ICC handlers. With the guarded and fail-soft reads modelled, nothing in those handlers throws.

## Findings

| source | as written | input that shows it | evidently intended | confidence | as-written member | corrected member |
|---|---|---|---|---|---|---|
| docs/analyzers.js:440-441 | the 8BIM data size is assembled with `<<` and `\|`, so a size with its top bit set is negative. With an empty name, sizes from 7FFF FFFF (through the overflow of `size + 1`) up to FF FF FF F2 move the scan backwards at line 478, FF FF FF F3 and FF FF FF F4 keep it in place, and FF FF FF F5 to FF FF FF FF move it forward by less than the data, into the block's own bytes; a longer name shifts these bounds; the copy `main.js:6` loads does the same at src/analyzers.js:378-381, where `dSize % 2` is 0 or −1 | an APP13 payload whose first block has size FF FF FF F0 (`Photoshop.LoopingPayload`): the scan returns to offset 0 and repeats forever; size FF FF FF F4 (`Photoshop.StallingPayload`) holds it at its offset; size FF FF FF FF (`Photoshop.SkippingPayload`) makes it find a ResolutionInfo block inside the skipped data | the size is an unsigned 32-bit count and the scan always moves forward | not executed | Photoshop.AsWrittenScanCycles, Photoshop.AsWrittenScanStalls, Photoshop.AsWrittenFindsLaterBlock | Photoshop.ScanMakesProgress |
