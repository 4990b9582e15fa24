/**
 * The JPEG analyzer: a walk over the marker segments of the file (Annex B of
 * ITU-T T.81), with handlers for JFIF (APP0), EXIF (APP1), ICC profile (APP2),
 * Photoshop (APP13) and start-of-frame segments.
 */
module Jpeg {
  import opened Wrappers
  import opened ByteView
  import opened Rational
  import opened Report
  import opened Keywords
  import opened Policy
  import opened Raster
  import opened Exif
  import opened Photoshop

  /** "JFIF" followed by a NUL byte. */
  const JfifSignature: seq<Byte> := [0x4A, 0x46, 0x49, 0x46, 0x00]

  /** "ICC_PROFILE" followed by a NUL byte. */
  const IccSignature: seq<Byte> := [0x49, 0x43, 0x43, 0x5F, 0x50, 0x52, 0x4F, 0x46, 0x49, 0x4C, 0x45, 0x00]

  const MarkerPrefix: Byte := 0xFF
  const EndOfImage: Byte := 0xD9

  /** Before the first segment: no size, 72 dpi on both axes, RGB, no profile. */
  const JpegInit: RasterState := RasterState(0, 0, DefaultDpi, DefaultDpi, RGB, false, None, false)

  /** The file starts with the start-of-image marker FF D8. */
  predicate HasJpegSignature(b: seq<Byte>)
  {
    |b| >= 2 && b[0] == 0xFF && b[1] == 0xD8
  }

  /** Markers that carry no length: SOI, TEM and the restart markers RST0-RST7. */
  predicate Standalone(m: Byte)
  {
    m == 0xD8 || m == 0x01 || (0xD0 <= m <= 0xD7)
  }

  /** Start-of-frame markers: C0-C3, C5-C7, C9-CB and CD-CF (not DHT, JPG or DAC). */
  predicate IsStartOfFrame(m: Byte)
  {
    (0xC0 <= m <= 0xC3) || (0xC5 <= m <= 0xC7) || (0xC9 <= m <= 0xCB) || (0xCD <= m <= 0xCF)
  }

  /** Skips fill bytes: moves along a run of FF bytes to the last one before the marker code. */
  function SkipFill(b: seq<Byte>, offset: nat): (o: nat)
    ensures o >= offset
    ensures o + 1 >= |b| || b[o + 1] != MarkerPrefix
    ensures forall k :: offset < k <= o ==> k < |b| && b[k] == MarkerPrefix
    decreases |b| - offset
  {
    if offset + 1 < |b| && b[offset + 1] == MarkerPrefix then SkipFill(b, offset + 1) else offset
  }

  /** The outcome of one pass of the marker walk. */
  datatype Step =
    | Stop                                              // end of the walk
    | Skip(next: nat)                                   // no segment here; go on at `next`
    | Segment(marker: Byte, start: nat, end: nat, next: nat) // a segment whose payload is `b[start..end]`

  /**
   * One pass of the marker walk at `offset`: a byte other than FF is skipped,
   * fill bytes are skipped, EOI stops, standalone markers are stepped over, and a
   * declared length below 2 steps over the marker alone. A segment's end is
   * clipped to the buffer; the walk resumes at the declared end.
   */
  function JpegStep(b: seq<Byte>, offset: nat): (s: Step)
    ensures offset + 1 >= |b| ==> s == Stop
    ensures s.Skip? ==> s.next > offset
    ensures s.Segment? ==> offset + 4 <= s.start <= s.end <= |b| && s.next >= s.end && s.next > offset
    ensures s.Segment? ==> s.marker != EndOfImage && !Standalone(s.marker)
    ensures offset + 1 < |b| && b[offset] == MarkerPrefix && b[offset + 1] == EndOfImage ==> s == Stop
    ensures offset + 1 < |b| && b[offset] != MarkerPrefix ==> s == Skip(offset + 1)
    ensures offset + 1 < |b| && b[offset] == MarkerPrefix ==>
      var o := SkipFill(b, offset);
      && (o + 1 >= |b| ==> s == Stop)
      && (o + 1 < |b| && b[o + 1] == EndOfImage ==> s == Stop)
      && (o + 1 < |b| && Standalone(b[o + 1]) ==> s == Skip(o + 2))
      && (o + 1 < |b| && b[o + 1] != EndOfImage && !Standalone(b[o + 1]) && o + 3 >= |b| ==> s == Stop)
      && (o + 3 < |b| && b[o + 1] != EndOfImage && !Standalone(b[o + 1]) && BE16(b, o + 2) < 2 ==> s == Skip(o + 2))
      && (o + 3 < |b| && b[o + 1] != EndOfImage && !Standalone(b[o + 1]) && BE16(b, o + 2) >= 2 ==>
          s == Segment(b[o + 1], o + 4, Min(o + 2 + BE16(b, o + 2), |b|), o + 2 + BE16(b, o + 2)))
  {
    if offset + 1 >= |b| then Stop
    else if b[offset] != MarkerPrefix then Skip(offset + 1)
    else
      var o := SkipFill(b, offset);
      if o + 1 >= |b| then Stop
      else
        var m := b[o + 1];
        if m == EndOfImage then Stop
        else if Standalone(m) then Skip(o + 2)
        else if o + 3 >= |b| then Stop
        else
          var length := BE16(b, o + 2);
          if length < 2 then Skip(o + 2)
          else Segment(m, o + 4, Min(o + 2 + length, |b|), o + 2 + length)
  }

  /**
   * A JFIF segment whose density is taken: the signature, unit 1 or 2, and a
   * horizontal density between 1 and 10000.
   */
  predicate JfifAccepted(b: seq<Byte>, ss: nat, se: nat)
  {
    se >= ss + 12 && HasSignature(b, ss, JfifSignature) && (At(b, ss + 7) == 1 || At(b, ss + 7) == 2)
    && 0 < BE16(b, ss + 8) <= 10000
  }

  /** The vertical density, falling back to the horizontal one when it is zero. */
  function JfifDensityY(b: seq<Byte>, ss: nat): (dy: nat)
    ensures BE16(b, ss + 10) > 0 ==> dy == BE16(b, ss + 10)
    ensures BE16(b, ss + 10) == 0 ==> dy == BE16(b, ss + 8)
  {
    if BE16(b, ss + 10) > 0 then BE16(b, ss + 10) else BE16(b, ss + 8)
  }

  /** The JFIF density: unit 1 is dots per inch, unit 2 dots per centimetre; other units set nothing. */
  function ApplyJfif(b: seq<Byte>, ss: nat, se: nat, st: RasterState): (r: RasterState)
    ensures r == st.(dpiX := r.dpiX, dpiY := r.dpiY, dpiDetected := r.dpiDetected)
    ensures st.dpiDetected ==> r.dpiDetected
    ensures !JfifAccepted(b, ss, se) ==> r == st
    ensures JfifAccepted(b, ss, se) && At(b, ss + 7) == 1 ==>
      r == st.(dpiX := BE16(b, ss + 8), dpiY := JfifDensityY(b, ss), dpiDetected := true)
    ensures JfifAccepted(b, ss, se) && At(b, ss + 7) == 2 ==>
      r == st.(dpiX := Round(Scale254(Ratio(BE16(b, ss + 8), 1))),
               dpiY := Round(Scale254(Ratio(JfifDensityY(b, ss), 1))),
               dpiDetected := true)
  {
    if se >= ss + 12 && HasSignature(b, ss, JfifSignature) then
      var units := At(b, ss + 7);
      var dx := BE16(b, ss + 8);
      var dy := if BE16(b, ss + 10) > 0 then BE16(b, ss + 10) else dx;
      if units == 1 && 0 < dx <= 10000 then st.(dpiX := dx, dpiY := dy, dpiDetected := true)
      else if units == 2 && 0 < dx <= 10000 then
        st.(dpiX := Round(Scale254(Ratio(dx, 1))), dpiY := Round(Scale254(Ratio(dy, 1))), dpiDetected := true)
      else st
    else st
  }

  /**
   * The ICC profile segment: marks a profile as present and, when its bytes name a
   * known profile, records the first one in precedence order; otherwise the name
   * found earlier is kept.
   */
  function ApplyIcc(b: seq<Byte>, ss: nat, se: nat, st: RasterState): (r: RasterState)
    ensures r == st.(hasIcc := r.hasIcc, icc := r.icc)
    ensures r.hasIcc <==> st.hasIcc || (se >= ss + 14 && HasSignature(b, ss, IccSignature))
    ensures r.icc != st.icc ==> r.icc == IdentifyProfile(Latin1(Slice(b, ss + 14, se)), JpegTable) && r.icc.Some?
    ensures se >= ss + 14 && HasSignature(b, ss, IccSignature) && IdentifyProfile(Latin1(Slice(b, ss + 14, se)), JpegTable).Some? ==>
      r.icc == IdentifyProfile(Latin1(Slice(b, ss + 14, se)), JpegTable)
    ensures !(se >= ss + 14 && HasSignature(b, ss, IccSignature) && IdentifyProfile(Latin1(Slice(b, ss + 14, se)), JpegTable).Some?) ==>
      r.icc == st.icc
  {
    if se >= ss + 14 && HasSignature(b, ss, IccSignature) then
      var name := IdentifyProfile(Latin1(Slice(b, ss + 14, se)), JpegTable);
      st.(hasIcc := true, icc := if name.Some? then name else st.icc)
    else st
  }

  /** The start-of-frame segment: height, width, and the colour space from the component count. */
  function ApplySof(b: seq<Byte>, ss: nat, se: nat, st: RasterState): (r: RasterState)
    ensures r == st.(width := r.width, height := r.height, colorSpace := r.colorSpace)
    ensures se >= ss + 6 ==> r.height == BE16(b, ss + 1) && r.width == BE16(b, ss + 3)
    ensures se >= ss + 6 && At(b, ss + 5) == 1 ==> r.colorSpace == Grayscale
    ensures se >= ss + 6 && At(b, ss + 5) == 3 ==> r.colorSpace == RGB
    ensures se >= ss + 6 && At(b, ss + 5) == 4 ==> r.colorSpace == CMYK
    ensures r.colorSpace != st.colorSpace ==> se >= ss + 6 && At(b, ss + 5) in {1, 3, 4}
    ensures se < ss + 6 ==> r == st
  {
    if se >= ss + 6 then
      var components := At(b, ss + 5);
      var cs :=
        if components == 1 then Grayscale
        else if components == 3 then RGB
        else if components == 4 then CMYK
        else st.colorSpace;
      st.(height := BE16(b, ss + 1), width := BE16(b, ss + 3), colorSpace := cs)
    else st
  }

  /** Dispatch of one segment to its handler; other segments change nothing. */
  function ApplySegment(b: seq<Byte>, m: Byte, ss: nat, se: nat, st: RasterState): (r: RasterState)
    ensures m == 0xED && st.dpiDetected ==> r == st
    ensures st.dpiDetected ==> r.dpiDetected
    ensures !(m in {0xE0, 0xE1, 0xE2, 0xED} || IsStartOfFrame(m)) ==> r == st
  {
    if m == 0xE0 then ApplyJfif(b, ss, se, st)
    else if m == 0xE1 then ExifSegment(b, ss, se, st)
    else if m == 0xE2 then ApplyIcc(b, ss, se, st)
    else if m == 0xED then PhotoshopSegment(b, ss, se, st)
    else if IsStartOfFrame(m) then ApplySof(b, ss, se, st)
    else st
  }

  /** The marker walk from `offset` on. It ends because every pass moves `offset` forward. */
  function JpegWalk(b: seq<Byte>, offset: nat, st: RasterState): RasterState
    decreases |b| - offset
  {
    match JpegStep(b, offset)
    case Stop => st
    case Skip(next) => JpegWalk(b, next, st)
    case Segment(m, ss, se, next) => JpegWalk(b, next, ApplySegment(b, m, ss, se, st))
  }

  /** The report for a JPEG file with a valid signature. */
  function JpegReport(fileName: string, b: seq<Byte>): AnalysisReport
  {
    var st := JpegWalk(b, 2, JpegInit);
    RasterReport(fileName, JPG, |b|, st, JpegVerdict(ReportedDpi(st), st.colorSpace, st.hasIcc, st.icc))
  }

  /** Once detected, a resolution stays detected for the rest of the walk. */
  lemma {:induction false} WalkKeepsDetection(b: seq<Byte>, offset: nat, st: RasterState)
    requires st.dpiDetected
    ensures JpegWalk(b, offset, st).dpiDetected
    decreases |b| - offset
  {
    match JpegStep(b, offset)
    case Stop =>
    case Skip(next) => WalkKeepsDetection(b, next, st);
    case Segment(m, ss, se, next) => WalkKeepsDetection(b, next, ApplySegment(b, m, ss, se, st));
  }

  /** No handler touches the resolution without marking it detected. */
  lemma SegmentKeepsDefault(b: seq<Byte>, m: Byte, ss: nat, se: nat, st: RasterState)
    requires DefaultDpiKept(st)
    ensures DefaultDpiKept(ApplySegment(b, m, ss, se, st))
  {
  }

  /** While no resolution is detected, the walk leaves both axes at 72 dpi. */
  lemma {:induction false} WalkKeepsDefault(b: seq<Byte>, offset: nat, st: RasterState)
    requires DefaultDpiKept(st)
    ensures DefaultDpiKept(JpegWalk(b, offset, st))
    decreases |b| - offset
  {
    match JpegStep(b, offset)
    case Stop =>
    case Skip(next) => WalkKeepsDefault(b, next, st);
    case Segment(m, ss, se, next) =>
      SegmentKeepsDefault(b, m, ss, se, st);
      WalkKeepsDefault(b, next, ApplySegment(b, m, ss, se, st));
  }

  /** A JPEG whose resolution was not detected is reported at the 72 dpi default. */
  lemma JpegDefaultResolution(fileName: string, b: seq<Byte>)
    ensures JpegReport(fileName, b).resolution.status == Default ==>
      JpegReport(fileName, b).resolution.value == Dpi(DefaultDpi) && JpegReport(fileName, b).physicalDimensions.None?
  {
    WalkKeepsDefault(b, 2, JpegInit);
  }

  /** A file that ends right after the signature has the initial state: 72 dpi, RGB, no profile. */
  lemma EmptyWalk(b: seq<Byte>)
    requires |b| <= 3
    ensures JpegWalk(b, 2, JpegInit) == JpegInit
  {
  }

  /**
   * A minimal JPEG: SOI, a JFIF segment at 300 × 300 dots per inch, a baseline
   * frame of 1000 × 2000 pixels with three components, EOI.
   */
  const JfifExample: seq<Byte> :=
    [0xFF, 0xD8,
     0xFF, 0xE0, 0x00, 0x10, 0x4A, 0x46, 0x49, 0x46, 0x00, 0x01, 0x01, 0x01, 0x01, 0x2C, 0x01, 0x2C, 0x00, 0x00,
     0xFF, 0xC0, 0x00, 0x08, 0x08, 0x07, 0xD0, 0x03, 0xE8, 0x03,
     0xFF, 0xD9]

  /** The walk over that file: a JFIF segment, a frame segment, then EOI. */
  lemma JfifExampleSteps()
    ensures JpegStep(JfifExample, 2) == Segment(0xE0, 6, 20, 20)
    ensures JpegStep(JfifExample, 20) == Segment(0xC0, 24, 30, 30)
    ensures JpegStep(JfifExample, 30) == Stop
  {
    FirstStep();
    SecondStep();
    var b := JfifExample;
    assert b[30] == 0xFF && b[31] == 0xD9;
  }

  lemma FirstStep()
    ensures JpegStep(JfifExample, 2) == Segment(0xE0, 6, 20, 20)
  {
    var b := JfifExample;
    assert |b| == 32 && b[2] == 0xFF && b[3] == 0xE0;
    assert SkipFill(b, 2) == 2;
    assert b[4] == 0x00 && b[5] == 0x10;
    assert BE16(b, 4) == 16;
  }

  lemma SecondStep()
    ensures JpegStep(JfifExample, 20) == Segment(0xC0, 24, 30, 30)
  {
    var b := JfifExample;
    assert |b| == 32 && b[20] == 0xFF && b[21] == 0xC0;
    assert SkipFill(b, 20) == 20;
    assert b[22] == 0x00 && b[23] == 0x08;
    assert BE16(b, 22) == 8;
  }

  /** What the two segments of that file set. */
  lemma JfifExampleSegments()
    ensures ApplySegment(JfifExample, 0xE0, 6, 20, JpegInit) == JpegInit.(dpiX := 300, dpiY := 300, dpiDetected := true)
    ensures ApplySegment(JfifExample, 0xC0, 24, 30, JpegInit.(dpiX := 300, dpiY := 300, dpiDetected := true))
      == JpegInit.(dpiX := 300, dpiY := 300, dpiDetected := true, height := 2000, width := 1000)
  {
    var b := JfifExample;
    assert HasSignature(b, 6, JfifSignature);
    assert At(b, 13) == 1 && BE16(b, 14) == 300 && BE16(b, 16) == 300;
    assert BE16(b, 25) == 2000 && BE16(b, 27) == 1000 && At(b, 29) == 3;
  }

  /** The walk over that file ends with 300 dpi detected and a 1000 × 2000 frame. */
  lemma JfifExampleWalk()
    ensures JpegWalk(JfifExample, 2, JpegInit)
      == JpegInit.(dpiX := 300, dpiY := 300, dpiDetected := true, height := 2000, width := 1000)
  {
    var b := JfifExample;
    JfifExampleSteps();
    JfifExampleSegments();
    var st1 := JpegInit.(dpiX := 300, dpiY := 300, dpiDetected := true);
    var st2 := st1.(height := 2000, width := 1000);
    assert JpegWalk(b, 30, st2) == st2;
    assert JpegWalk(b, 20, st1) == st2;
  }

  /** That file is reported at a detected 300 dpi, in RGB, with a physical size, as a warning. */
  lemma JfifExampleReport()
    ensures HasJpegSignature(JfifExample)
    ensures var r := JpegReport("example.jpg", JfifExample);
      && r.resolution == Resolution(Dpi(300), Detected)
      && r.dimensions == Pixels(1000, 2000)
      && r.colorSpace == RGB
      && r.physicalDimensions == Some(PhysicalDimensions(1000, 2000, 300))
      && r.printability.status == Warning
  {
    JfifExampleWalk();
    var st := JpegInit.(dpiX := 300, dpiY := 300, dpiDetected := true, height := 2000, width := 1000);
    assert ReportedDpi(st) == 300;
  }

  /**
   * The JPEG analyzer: rejects a file without the FF D8 signature, otherwise
   * walks the segments and builds the report.
   */
  method AnalyzeJpg(b: seq<Byte>, fileName: string) returns (r: Result<AnalysisReport, AnalysisError>)
    ensures r.Failure? <==> !HasJpegSignature(b)
    ensures r.Failure? ==> r.error == InvalidJpeg
    ensures r.Success? ==> r.value == JpegReport(fileName, b)
  {
    if |b| < 2 || b[0] != 0xFF || b[1] != 0xD8 {
      return Failure(InvalidJpeg);
    }
    var st := JpegInit;
    var offset := 2;
    while offset + 1 < |b|
      invariant JpegWalk(b, offset, st) == JpegWalk(b, 2, JpegInit)
      decreases |b| - offset
    {
      var step := NextStep(b, offset);
      match step
      case Stop =>
        break;
      case Skip(next) =>
        offset := next;
      case Segment(m, ss, se, next) =>
        st := HandleSegment(b, m, ss, se, st);
        offset := next;
    }
    var dpi := Max(st.dpiX, st.dpiY);
    r := Success(RasterReport(fileName, JPG, |b|, st, JpegVerdict(dpi, st.colorSpace, st.hasIcc, st.icc)));
  }

  /** One pass of the walk's loop up to the segment handlers, with its fill-byte loop. */
  method NextStep(b: seq<Byte>, offset: nat) returns (s: Step)
    ensures s == JpegStep(b, offset)
  {
    if offset + 1 >= |b| {
      return Stop;
    }
    if b[offset] != MarkerPrefix {
      return Skip(offset + 1);
    }
    var o := offset;
    while o + 1 < |b| && b[o + 1] == MarkerPrefix
      invariant offset <= o && SkipFill(b, o) == SkipFill(b, offset)
      decreases |b| - o
    {
      o := o + 1;
    }
    if o + 1 >= |b| {
      return Stop;
    }
    var m := b[o + 1];
    if m == EndOfImage {
      return Stop;
    }
    if Standalone(m) {
      return Skip(o + 2);
    }
    if o + 3 >= |b| {
      return Stop;
    }
    var length := BE16(b, o + 2);
    if length < 2 {
      return Skip(o + 2);
    }
    return Segment(m, o + 4, Min(o + 2 + length, |b|), o + 2 + length);
  }

  /** The segment handlers as the analyzer runs them, those with loops included. */
  method HandleSegment(b: seq<Byte>, m: Byte, ss: nat, se: nat, st: RasterState) returns (r: RasterState)
    ensures r == ApplySegment(b, m, ss, se, st)
  {
    if m == 0xE0 {
      r := ApplyJfif(b, ss, se, st);
    } else if m == 0xE1 {
      r := ExifHandler(b, ss, se, st);
    } else if m == 0xE2 {
      r := IccHandler(b, ss, se, st);
    } else if m == 0xED {
      r := PhotoshopHandler(b, ss, se, st);
    } else if IsStartOfFrame(m) {
      r := ApplySof(b, ss, se, st);
    } else {
      r := st;
    }
  }

  /** The ICC handler as the analyzer runs it, decoding the profile bytes to text first. */
  method IccHandler(b: seq<Byte>, ss: nat, se: nat, st: RasterState) returns (r: RasterState)
    ensures r == ApplyIcc(b, ss, se, st)
  {
    if se < ss + 14 || !HasSignature(b, ss, IccSignature) {
      return st;
    }
    var profileData := BytesToString(b, ss + 14, se);
    var name := IdentifyProfile(profileData, JpegTable);
    assert name == IdentifyProfile(Latin1(Slice(b, ss + 14, se)), JpegTable);
    r := st.(hasIcc := true, icc := if name.Some? then name else st.icc);
  }
}
