/**
 * The TIFF analyzer: the header and the first image file directory (IFD) of a
 * TIFF 6.0 file (section 2), with the baseline tags ImageWidth (256),
 * ImageLength (257), PhotometricInterpretation (262), XResolution (282),
 * YResolution (283) and ResolutionUnit (296), and the ICC profile tag 34675.
 * Its 32-bit reads are left signed, as the analyzer leaves them.
 */
module Tiff {
  import opened Wrappers
  import opened ByteView
  import opened Rational
  import opened Report
  import opened Keywords
  import opened Policy
  import opened Raster

  const TagImageWidth: nat := 256
  const TagImageLength: nat := 257
  const TagPhotometric: nat := 262
  const TagXResolution: nat := 282
  const TagYResolution: nat := 283
  const TagResolutionUnit: nat := 296
  const TagIccProfile: nat := 34675
  const TypeShort: nat := 3
  /** ResolutionUnit value for centimetres. */
  const UnitCentimetre: int := 3
  /** At most this many directory entries are read. */
  const MaxEntries: nat := 100
  /** At most this many bytes of an ICC profile are searched for a name. */
  const MaxProfileBytes: nat := 500

  /** What the entry loop accumulates: the raster state and the resolution unit. */
  datatype TiffAcc = TiffAcc(st: RasterState, unit: int)

  /** Before the first entry: no size, 72 dpi, colour space unknown, no profile, unit 2 (inches). */
  const TiffInit: TiffAcc := TiffAcc(RasterState(0, 0, DefaultDpi, DefaultDpi, Unknown, false, None, false), 2)

  /** "II" selects little-endian; any other first two bytes are read big-endian. */
  function IsLittleEndian(b: seq<Byte>): bool
  {
    BE16(b, 0) == 0x4949
  }

  /** The file is accepted exactly when the word at offset 2 is 42 in its byte order. */
  predicate HasTiffMagic(b: seq<Byte>)
  {
    ReadU16(b, 2, IsLittleEndian(b)) == 42
  }

  /** Colour space from PhotometricInterpretation: 0 and 1 grey, 2 RGB, 5 CMYK; other values keep the previous one. */
  function Photometric(value: nat, previous: ColorSpace): (cs: ColorSpace)
    ensures value == 0 || value == 1 ==> cs == Grayscale
    ensures value == 2 ==> cs == RGB
    ensures value == 5 ==> cs == CMYK
    ensures value !in {0, 1, 2, 5} ==> cs == previous
  {
    if value == 0 || value == 1 then Grayscale
    else if value == 2 then RGB
    else if value == 5 then CMYK
    else previous
  }

  /**
   * An X or Y resolution entry whose value offset is `vo`: the rounded quotient of
   * the RATIONAL stored there, or 72 when its denominator is not positive.
   */
  function ResolutionValue(b: seq<Byte>, le: bool, vo: int): (dpi: int)
    ensures ReadI32(b, vo + 4, le) <= 0 ==> dpi == DefaultDpi
    ensures ReadI32(b, vo + 4, le) > 0 ==> dpi == Round(Ratio(ReadI32(b, vo, le), ReadI32(b, vo + 4, le)))
  {
    var num := ReadI32(b, vo, le);
    var den := ReadI32(b, vo + 4, le);
    if den > 0 then Round(Ratio(num, den)) else DefaultDpi
  }

  /** The profile name found in at most 500 bytes of profile data (fewer if `count` or the file is shorter). */
  function ProfileName(b: seq<Byte>, po: int, count: int): Option<IccName>
  {
    IdentifyProfile(Latin1(Slice(b, po, Min(Min(po + count, po + MaxProfileBytes), |b|))), TiffTable)
  }

  /**
   * One 12-byte directory entry at `e`. A resolution entry whose value lies inside
   * the file marks the resolution detected, even when it falls back to 72.
   */
  function TiffEntry(b: seq<Byte>, le: bool, e: int, acc: TiffAcc): (r: TiffAcc)
    ensures r.st.dpiX != acc.st.dpiX ==> ReadU16(b, e, le) == TagXResolution && r.st.dpiDetected
    ensures r.st.dpiY != acc.st.dpiY ==> ReadU16(b, e, le) == TagYResolution && r.st.dpiDetected
    ensures acc.st.dpiDetected ==> r.st.dpiDetected
    ensures r.st.dpiDetected != acc.st.dpiDetected ==> ReadU16(b, e, le) in {TagXResolution, TagYResolution}
    ensures r.unit != acc.unit ==> ReadU16(b, e, le) == TagResolutionUnit
    ensures r.st.hasIcc <==> acc.st.hasIcc || ReadU16(b, e, le) == TagIccProfile
    ensures ReadU16(b, e, le) == TagXResolution && ReadI32(b, e + 8, le) + 8 <= |b| ==>
      r.st.dpiX == ResolutionValue(b, le, ReadI32(b, e + 8, le)) && r.st.dpiDetected
    ensures ReadU16(b, e, le) == TagYResolution && ReadI32(b, e + 8, le) + 8 <= |b| ==>
      r.st.dpiY == ResolutionValue(b, le, ReadI32(b, e + 8, le)) && r.st.dpiDetected
    ensures ReadU16(b, e, le) in {TagXResolution, TagYResolution} && ReadI32(b, e + 8, le) + 8 > |b| ==> r == acc
    ensures ReadU16(b, e, le) == TagXResolution && ReadI32(b, e + 8, le) + 8 <= |b| ==>
      r == acc.(st := acc.st.(dpiX := ResolutionValue(b, le, ReadI32(b, e + 8, le)), dpiDetected := true))
    ensures ReadU16(b, e, le) == TagYResolution && ReadI32(b, e + 8, le) + 8 <= |b| ==>
      r == acc.(st := acc.st.(dpiY := ResolutionValue(b, le, ReadI32(b, e + 8, le)), dpiDetected := true))
    ensures ReadU16(b, e, le) == TagImageWidth ==> r == acc.(st := acc.st.(width := EntryInteger(b, le, e)))
    ensures ReadU16(b, e, le) == TagImageLength ==> r == acc.(st := acc.st.(height := EntryInteger(b, le, e)))
    ensures ReadU16(b, e, le) == TagResolutionUnit ==> r == acc.(unit := ReadU16(b, e + 8, le))
    ensures ReadU16(b, e, le) == TagPhotometric ==>
      r == acc.(st := acc.st.(colorSpace := Photometric(ReadU16(b, e + 8, le), acc.st.colorSpace)))
    ensures ReadU16(b, e, le) == TagIccProfile ==> r == IccEntry(b, le, e, acc)
    ensures (ReadU16(b, e, le) !in {TagImageWidth, TagImageLength, TagPhotometric, TagXResolution,
                                    TagYResolution, TagResolutionUnit, TagIccProfile}) ==> r == acc
  {
    var tag := ReadU16(b, e, le);
    var st := acc.st;
    if tag == TagImageWidth then
      acc.(st := st.(width := EntryInteger(b, le, e)))
    else if tag == TagImageLength then
      acc.(st := st.(height := EntryInteger(b, le, e)))
    else if tag == TagXResolution || tag == TagYResolution then
      var vo := ReadI32(b, e + 8, le);
      if vo + 8 <= |b| then
        var dpi := ResolutionValue(b, le, vo);
        if tag == TagXResolution then acc.(st := st.(dpiX := dpi, dpiDetected := true))
        else acc.(st := st.(dpiY := dpi, dpiDetected := true))
      else acc
    else if tag == TagResolutionUnit then
      acc.(unit := ReadU16(b, e + 8, le))
    else if tag == TagPhotometric then
      acc.(st := st.(colorSpace := Photometric(ReadU16(b, e + 8, le), st.colorSpace)))
    else if tag == TagIccProfile then IccEntry(b, le, e, acc)
    else acc
  }

  /**
   * The integer value of an ImageWidth or ImageLength entry: a SHORT is read as
   * 16 bits, any other type as a signed 32-bit LONG.
   */
  function EntryInteger(b: seq<Byte>, le: bool, e: int): (v: int)
    ensures ReadU16(b, e + 2, le) == TypeShort ==> 0 <= v < 0x1_0000 && v == ReadU16(b, e + 8, le)
    ensures ReadU16(b, e + 2, le) != TypeShort ==> -0x8000_0000 <= v < 0x8000_0000 && v == ReadI32(b, e + 8, le)
  {
    if ReadU16(b, e + 2, le) == TypeShort then ReadU16(b, e + 8, le) else ReadI32(b, e + 8, le)
  }

  /** An ICC profile entry: a profile is present, and a known name in its data replaces the profile name. */
  function IccEntry(b: seq<Byte>, le: bool, e: int, acc: TiffAcc): (r: TiffAcc)
    ensures r.st.hasIcc && r.unit == acc.unit
    ensures r.st == acc.st.(hasIcc := true, icc := r.st.icc)
    ensures r.st.icc != acc.st.icc ==> r.st.icc == ProfileName(b, ReadI32(b, e + 8, le), ReadI32(b, e + 4, le)) && r.st.icc.Some?
    ensures ProfileName(b, ReadI32(b, e + 8, le), ReadI32(b, e + 4, le)).Some? ==>
      r.st.icc == ProfileName(b, ReadI32(b, e + 8, le), ReadI32(b, e + 4, le))
    ensures ProfileName(b, ReadI32(b, e + 8, le), ReadI32(b, e + 4, le)).None? ==> r.st.icc == acc.st.icc
  {
    var name := ProfileName(b, ReadI32(b, e + 8, le), ReadI32(b, e + 4, le));
    acc.(st := acc.st.(hasIcc := true, icc := if name.Some? then name else acc.st.icc))
  }

  /** Start of the `i`-th entry of the directory at `ifd`. */
  function EntryPos(ifd: int, i: nat): int
  {
    ifd + 2 + i * 12
  }

  /** The entry loop from entry `i` on: at most `count` and at most 100 entries, stopping at the first that would pass the end. */
  function TiffEntries(b: seq<Byte>, le: bool, ifd: int, count: nat, i: nat, acc: TiffAcc): TiffAcc
    decreases count - i
  {
    if i >= count || i >= MaxEntries || EntryPos(ifd, i) + 12 > |b| then acc
    else TiffEntries(b, le, ifd, count, i + 1, TiffEntry(b, le, EntryPos(ifd, i), acc))
  }

  /** A directory claiming 100 or more entries is read exactly as one claiming 100. */
  lemma {:induction false} EntryCap(b: seq<Byte>, le: bool, ifd: int, count: nat, i: nat, acc: TiffAcc)
    requires count >= MaxEntries
    ensures TiffEntries(b, le, ifd, count, i, acc) == TiffEntries(b, le, ifd, MaxEntries, i, acc)
    decreases MaxEntries - i
  {
    if i < MaxEntries && EntryPos(ifd, i) + 12 <= |b| {
      EntryCap(b, le, ifd, count, i + 1, TiffEntry(b, le, EntryPos(ifd, i), acc));
    }
  }

  /** While no resolution entry has been applied, the entry loop leaves both axes at 72 dpi. */
  lemma {:induction false} EntriesKeepDefault(b: seq<Byte>, le: bool, ifd: int, count: nat, i: nat, acc: TiffAcc)
    requires DefaultDpiKept(acc.st)
    ensures DefaultDpiKept(TiffEntries(b, le, ifd, count, i, acc).st)
    decreases count - i
  {
    if i < count && i < MaxEntries && EntryPos(ifd, i) + 12 <= |b| {
      EntriesKeepDefault(b, le, ifd, count, i + 1, TiffEntry(b, le, EntryPos(ifd, i), acc));
    }
  }

  /** After the loop: a centimetre unit multiplies both axes by 2.54, the 72 dpi default included. */
  function ApplyUnit(acc: TiffAcc): (st: RasterState)
    ensures acc.unit != UnitCentimetre ==> st == acc.st
    ensures st == acc.st.(dpiX := st.dpiX, dpiY := st.dpiY)
    ensures acc.unit == UnitCentimetre ==>
      st.dpiX == Round(Scale254(Ratio(acc.st.dpiX, 1))) && st.dpiY == Round(Scale254(Ratio(acc.st.dpiY, 1)))
  {
    if acc.unit == UnitCentimetre then
      acc.st.(dpiX := Round(Scale254(Ratio(acc.st.dpiX, 1))), dpiY := Round(Scale254(Ratio(acc.st.dpiY, 1))))
    else acc.st
  }

  /** What the entry loop collects over the first directory, whose offset is at byte 4. */
  function TiffAccOf(b: seq<Byte>): TiffAcc
  {
    var le := IsLittleEndian(b);
    var ifd := ReadI32(b, 4, le);
    TiffEntries(b, le, ifd, ReadU16(b, ifd, le), 0, TiffInit)
  }

  /** The state the analyzer ends with, for a file with the right magic number. */
  function TiffState(b: seq<Byte>): RasterState
  {
    ApplyUnit(TiffAccOf(b))
  }

  /** The report for a TIFF file with the right magic number. */
  function TiffReport(fileName: string, b: seq<Byte>): AnalysisReport
  {
    var st := TiffState(b);
    RasterReport(fileName, TIFF, |b|, st, TiffVerdict(ReportedDpi(st), st.colorSpace, st.hasIcc))
  }

  /** 72 dpi given per centimetre is 182.88 dpi, which rounds to 183. */
  lemma DefaultInCentimetres()
    ensures Round(Scale254(Ratio(DefaultDpi, 1))) == 183
  {
  }

  /**
   * A TIFF whose resolution was not detected is reported at the default with
   * status default: 72 dpi, or 183 dpi when its unit is centimetres.
   */
  lemma TiffDefaultResolution(fileName: string, b: seq<Byte>)
    ensures var r := TiffReport(fileName, b);
      r.resolution.status == Default ==>
        r.resolution.value == Dpi(if TiffAccOf(b).unit == UnitCentimetre then 183 else DefaultDpi)
  {
    var le := IsLittleEndian(b);
    var ifd := ReadI32(b, 4, le);
    EntriesKeepDefault(b, le, ifd, ReadU16(b, ifd, le), 0, TiffInit);
    DefaultInCentimetres();
  }

  /**
   * A 22-byte little-endian file whose only entry sets ResolutionUnit to 3
   * (centimetres): no resolution is detected, yet 183 dpi is reported.
   */
  const CentimetreOnlyTiff: seq<Byte> :=
    [0x49, 0x49, 42, 0, 8, 0, 0, 0,
     1, 0,
     0x28, 0x01, 3, 0, 1, 0, 0, 0, 3, 0, 0, 0]

  lemma CentimetreOnlyReportsDefault183()
    ensures HasTiffMagic(CentimetreOnlyTiff)
    ensures TiffReport("f.tif", CentimetreOnlyTiff).resolution == Resolution(Dpi(183), Default)
  {
    var b := CentimetreOnlyTiff;
    assert IsLittleEndian(b);
    assert ReadI32(b, 4, true) == 8;
    assert ReadU16(b, 8, true) == 1;
    assert ReadU16(b, 10, true) == TagResolutionUnit;
    var acc := TiffEntry(b, true, 10, TiffInit);
    assert acc == TiffInit.(unit := 3);
    assert TiffEntries(b, true, 8, 1, 0, TiffInit) == TiffEntries(b, true, 8, 1, 1, acc);
    DefaultInCentimetres();
  }

  /** One directory entry as the analyzer runs it, with the ICC profile entry handled apart. */
  method HandleEntry(b: seq<Byte>, le: bool, e: int, acc: TiffAcc) returns (r: TiffAcc)
    ensures r == TiffEntry(b, le, e, acc)
  {
    if ReadU16(b, e, le) == TagIccProfile {
      r := IccEntryHandler(b, le, e, acc);
    } else {
      r := TiffEntry(b, le, e, acc);
    }
  }

  /** The ICC profile entry as the analyzer runs it, decoding the profile bytes to text first. */
  method IccEntryHandler(b: seq<Byte>, le: bool, e: int, acc: TiffAcc) returns (r: TiffAcc)
    ensures r == IccEntry(b, le, e, acc)
  {
    var count := ReadI32(b, e + 4, le);
    var po := ReadI32(b, e + 8, le);
    var profileData := BytesToString(b, po, Min(Min(po + count, po + MaxProfileBytes), |b|));
    var name := IdentifyProfile(profileData, TiffTable);
    assert name == ProfileName(b, po, count);
    r := acc.(st := acc.st.(hasIcc := true, icc := if name.Some? then name else acc.st.icc));
  }

  /**
   * The TIFF analyzer: rejects a file whose magic number is not 42, otherwise
   * reads the first directory and builds the report.
   */
  method AnalyzeTiff(b: seq<Byte>, fileName: string) returns (r: Result<AnalysisReport, AnalysisError>)
    ensures r.Failure? <==> !HasTiffMagic(b)
    ensures r.Failure? ==> r.error == InvalidTiff
    ensures r.Success? ==> r.value == TiffReport(fileName, b)
  {
    var le := BE16(b, 0) == 0x4949;
    if ReadU16(b, 2, le) != 42 {
      return Failure(InvalidTiff);
    }
    var ifd := ReadI32(b, 4, le);
    var count := ReadU16(b, ifd, le);
    var acc := TiffInit;
    var i := 0;
    while i < count && i < MaxEntries
      invariant i <= count
      invariant TiffEntries(b, le, ifd, count, i, acc) == TiffEntries(b, le, ifd, count, 0, TiffInit)
      decreases count - i
    {
      var e := ifd + 2 + i * 12;
      if e + 12 > |b| {
        break;
      }
      acc := HandleEntry(b, le, e, acc);
      i := i + 1;
    }
    var st := ApplyUnit(acc);
    var dpi := Max(st.dpiX, st.dpiY);
    r := Success(RasterReport(fileName, TIFF, |b|, st, TiffVerdict(dpi, st.colorSpace, st.hasIcc)));
  }
}
