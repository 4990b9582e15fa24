/**
 * The EXIF reader of the JPEG analyzer (APP1 segments). An EXIF block embeds a
 * TIFF header and a first image file directory (IFD) as in section 2 of the
 * TIFF 6.0 specification; the reader looks only at XResolution (tag 282),
 * YResolution (tag 283) and ResolutionUnit (tag 296), section 8. Every offset
 * in the block is relative to the start of the embedded TIFF header.
 */
module Exif {
  import opened Wrappers
  import opened ByteView
  import opened Rational
  import opened Raster

  /** "Exif" followed by two NUL bytes. */
  const ExifSignature: seq<Byte> := [0x45, 0x78, 0x69, 0x66, 0x00, 0x00]

  const TagXResolution: nat := 282
  const TagYResolution: nat := 283
  const TagResolutionUnit: nat := 296
  const TypeShort: nat := 3
  const TypeRational: nat := 5
  /** ResolutionUnit value for centimetres. */
  const UnitCentimetre: nat := 3

  /** A located first IFD: where the TIFF header starts, where the IFD starts, its byte order and entry count. */
  datatype ExifDir = ExifDir(tiffStart: nat, ifd: nat, littleEndian: bool, count: nat)

  /**
   * Locates the IFD of the APP1 segment whose payload is `b[ss..se]`. It needs the
   * EXIF signature, an "II" or "MM" byte-order mark, the magic number 42, an IFD
   * offset below 65536 whose entry count lies inside the segment, and between 1
   * and 199 entries.
   */
  function ExifDirectory(b: seq<Byte>, ss: nat, se: nat): (d: Option<ExifDir>)
    ensures d.Some? ==> se >= ss + 8 && HasSignature(b, ss, ExifSignature)
    ensures d.Some? ==> d.value.tiffStart == ss + 6 && d.value.tiffStart + 8 < se
    ensures d.Some? ==> BE16(b, ss + 6) == 0x4949 || BE16(b, ss + 6) == 0x4D4D
    ensures d.Some? ==> (d.value.littleEndian <==> BE16(b, ss + 6) == 0x4949)
    ensures d.Some? ==> ReadU16(b, ss + 8, d.value.littleEndian) == 42
    ensures d.Some? ==> d.value.tiffStart <= d.value.ifd < d.value.tiffStart + 65536 && d.value.ifd + 2 < se
    ensures d.Some? ==> d.value.count == ReadU16(b, d.value.ifd, d.value.littleEndian) && 0 < d.value.count < 200
    ensures d.Some? ==> d.value.ifd == ss + 6 + ReadU32(b, ss + 10, d.value.littleEndian)
    ensures var le := BE16(b, ss + 6) == 0x4949;
      var ifd := ss + 6 + ReadU32(b, ss + 10, le);
      (se >= ss + 8 && HasSignature(b, ss, ExifSignature) && ss + 14 < se
        && (BE16(b, ss + 6) == 0x4949 || BE16(b, ss + 6) == 0x4D4D)
        && ReadU16(b, ss + 8, le) == 42
        && ifd + 2 < se && ReadU32(b, ss + 10, le) < 65536
        && 0 < ReadU16(b, ifd, le) < 200) ==>
      d == Some(ExifDir(ss + 6, ifd, le, ReadU16(b, ifd, le)))
  {
    if !(se >= ss + 8 && HasSignature(b, ss, ExifSignature)) then None
    else
      var tiffStart := ss + 6;
      if !(tiffStart + 8 < se) then None
      else
        var mark := BE16(b, tiffStart);
        if mark != 0x4949 && mark != 0x4D4D then None
        else
          var le := mark == 0x4949;
          if ReadU16(b, tiffStart + 2, le) != 42 then None
          else
            var rel := ReadU32(b, tiffStart + 4, le);
            var ifd := tiffStart + rel;
            if !(ifd + 2 < se && rel < 65536) then None
            else
              var count := ReadU16(b, ifd, le);
              if !(0 < count < 200) then None
              else Some(ExifDir(tiffStart, ifd, le, count))
  }

  /** What the entry loop collects: the accepted X and Y resolutions and the resolution unit. */
  datatype ExifAcc = ExifAcc(x: Option<Ratio>, y: Option<Ratio>, unit: int)

  /** Before the first entry: nothing accepted, unit 2 (inches). */
  const ExifStart: ExifAcc := ExifAcc(None, None, 2)

  /** Every collected resolution lies in the accepted range. */
  predicate ValidAcc(acc: ExifAcc)
  {
    (acc.x.Some? ==> InDpiRange(acc.x.value)) && (acc.y.Some? ==> InDpiRange(acc.y.value))
  }

  /**
   * One 12-byte IFD entry at `e`. A SHORT ResolutionUnit sets the unit; an X or Y
   * resolution is taken only as a single RATIONAL whose value lies inside the
   * segment, at an offset below 65536, with both parts positive and a quotient
   * between 1 and 10000.
   */
  function ExifEntry(b: seq<Byte>, se: nat, d: ExifDir, e: nat, acc: ExifAcc): (r: ExifAcc)
    ensures ValidAcc(acc) ==> ValidAcc(r)
    ensures r.x != acc.x ==> ReadU16(b, e, d.littleEndian) == TagXResolution
    ensures r.y != acc.y ==> ReadU16(b, e, d.littleEndian) == TagYResolution
    ensures r.unit != acc.unit ==> ReadU16(b, e, d.littleEndian) == TagResolutionUnit
    ensures r.x != acc.x ==> r.x.Some? && InDpiRange(r.x.value)
    ensures r.y != acc.y ==> r.y.Some? && InDpiRange(r.y.value)
    ensures ReadU16(b, e, d.littleEndian) == TagResolutionUnit ==>
      r == if ReadU16(b, e + 2, d.littleEndian) == TypeShort then acc.(unit := ReadU16(b, e + 8, d.littleEndian)) else acc
    ensures ReadU16(b, e, d.littleEndian) == TagXResolution ==>
      r == if AcceptedRational(b, se, d, e).Some? then acc.(x := AcceptedRational(b, se, d, e)) else acc
    ensures ReadU16(b, e, d.littleEndian) == TagYResolution ==>
      r == if AcceptedRational(b, se, d, e).Some? then acc.(y := AcceptedRational(b, se, d, e)) else acc
    ensures ReadU16(b, e, d.littleEndian) !in {TagXResolution, TagYResolution, TagResolutionUnit} ==> r == acc
  {
    var le := d.littleEndian;
    var tag := ReadU16(b, e, le);
    var typ := ReadU16(b, e + 2, le);
    if tag == TagResolutionUnit && typ == TypeShort then
      acc.(unit := ReadU16(b, e + 8, le))
    else if tag == TagXResolution || tag == TagYResolution then
      match AcceptedRational(b, se, d, e)
      case None => acc
      case Some(q) => if tag == TagXResolution then acc.(x := Some(q)) else acc.(y := Some(q))
    else acc
  }

  /**
   * The resolution an X or Y entry at `e` carries, if it is taken: a single
   * RATIONAL stored inside the segment at an offset below 65536, with both parts
   * positive and a quotient between 1 and 10000.
   */
  function AcceptedRational(b: seq<Byte>, se: nat, d: ExifDir, e: nat): (q: Option<Ratio>)
    ensures var le := d.littleEndian;
      var rel := ReadU32(b, e + 8, le);
      var at := d.tiffStart + rel;
      var v := Ratio(ReadU32(b, at, le), ReadU32(b, at + 4, le));
      q.Some? <==> (ReadU16(b, e + 2, le) == TypeRational && ReadU32(b, e + 4, le) == 1
        && at + 8 <= se && rel < 65536 && v.num > 0 && v.den > 0 && InDpiRange(v))
    ensures var le := d.littleEndian;
      var at := d.tiffStart + ReadU32(b, e + 8, le);
      q.Some? ==> q.value == Ratio(ReadU32(b, at, le), ReadU32(b, at + 4, le)) && InDpiRange(q.value)
  {
    var le := d.littleEndian;
    if ReadU16(b, e + 2, le) == TypeRational && ReadU32(b, e + 4, le) == 1 then
      var rel := ReadU32(b, e + 8, le);
      var at := d.tiffStart + rel;
      if at + 8 <= se && rel < 65536 then
        var v := Ratio(ReadU32(b, at, le), ReadU32(b, at + 4, le));
        if v.den > 0 && v.num > 0 && InDpiRange(v) then Some(v) else None
      else None
    else None
  }

  /** Start of the `i`-th entry of the directory. */
  function EntryPos(d: ExifDir, i: nat): nat
  {
    d.ifd + 2 + i * 12
  }

  /** The entry loop from entry `i` on: it stops after `count` entries or at the first entry that would pass `se`. */
  function ExifEntries(b: seq<Byte>, se: nat, d: ExifDir, i: nat, acc: ExifAcc): ExifAcc
    decreases d.count - i
  {
    if i >= d.count || EntryPos(d, i) + 12 > se then acc
    else ExifEntries(b, se, d, i + 1, ExifEntry(b, se, d, EntryPos(d, i), acc))
  }

  /** The entry loop only ever collects accepted resolutions. */
  lemma {:induction false} ExifEntriesValid(b: seq<Byte>, se: nat, d: ExifDir, i: nat, acc: ExifAcc)
    requires ValidAcc(acc)
    ensures ValidAcc(ExifEntries(b, se, d, i, acc))
    decreases d.count - i
  {
    if i < d.count && EntryPos(d, i) + 12 <= se {
      ExifEntriesValid(b, se, d, i + 1, ExifEntry(b, se, d, EntryPos(d, i), acc));
    }
  }

  /**
   * A directory whose one entry is an accepted XResolution yields that value,
   * with no YResolution and the unit left at inches; applied, it sets the
   * horizontal resolution to the rounded value and marks it detected.
   */
  lemma SingleXResolution(b: seq<Byte>, se: nat, d: ExifDir, st: RasterState)
    requires d.count == 1 && EntryPos(d, 0) + 12 <= se
    requires ReadU16(b, EntryPos(d, 0), d.littleEndian) == TagXResolution
    requires AcceptedRational(b, se, d, EntryPos(d, 0)).Some?
    ensures ExifEntries(b, se, d, 0, ExifStart) == ExifAcc(AcceptedRational(b, se, d, EntryPos(d, 0)), None, 2)
    ensures ApplyExif(ExifEntries(b, se, d, 0, ExifStart), st).dpiX == Round(AcceptedRational(b, se, d, EntryPos(d, 0)).value)
    ensures ApplyExif(ExifEntries(b, se, d, 0, ExifStart), st).dpiDetected
  {
    var acc := ExifEntry(b, se, d, EntryPos(d, 0), ExifStart);
    assert acc == ExifAcc(AcceptedRational(b, se, d, EntryPos(d, 0)), None, 2);
    assert ExifEntries(b, se, d, 1, acc) == acc;
  }

  /** The `for` loop over the IFD entries, with its early `break`. */
  method ScanEntries(b: seq<Byte>, se: nat, d: ExifDir) returns (acc: ExifAcc)
    ensures acc == ExifEntries(b, se, d, 0, ExifStart)
    ensures ValidAcc(acc)
  {
    acc := ExifStart;
    for i := 0 to d.count
      invariant ExifEntries(b, se, d, i, acc) == ExifEntries(b, se, d, 0, ExifStart)
      invariant ValidAcc(acc)
    {
      var e := d.ifd + 2 + i * 12;
      if e + 12 > se {
        break;
      }
      acc := ExifEntry(b, se, d, e, acc);
    }
  }

  /**
   * An accepted value converted to dots per inch: multiplied by 2.54 when the
   * unit is centimetres, then kept only if it is still between 1 and 10000, and
   * rounded.
   */
  function ExifDpi(q: Ratio, unit: int): (dpi: Option<int>)
    requires InDpiRange(q)
    ensures dpi.Some? ==> 1 <= dpi.value <= 10000
    ensures unit != UnitCentimetre ==> dpi == Some(Round(q))
    ensures unit == UnitCentimetre ==> (dpi.Some? <==> InDpiRange(Scale254(q)))
    ensures unit == UnitCentimetre && dpi.Some? ==> dpi.value == Round(Scale254(q))
  {
    RoundInDpiRange(q);
    var v := if unit == UnitCentimetre then Scale254(q) else q;
    if InDpiRange(v) then
      RoundInDpiRange(v);
      Some(Round(v))
    else None
  }

  /**
   * Applies the collected values to the analyzer state. An EXIF resolution
   * overrides whatever JFIF set before it, and marks the resolution detected.
   */
  function ApplyExif(acc: ExifAcc, st: RasterState): (r: RasterState)
    requires ValidAcc(acc)
    ensures r == st.(dpiX := r.dpiX, dpiY := r.dpiY, dpiDetected := r.dpiDetected)
    ensures acc.x.Some? && ExifDpi(acc.x.value, acc.unit).Some? ==> r.dpiX == ExifDpi(acc.x.value, acc.unit).value && r.dpiDetected
    ensures acc.y.Some? && ExifDpi(acc.y.value, acc.unit).Some? ==> r.dpiY == ExifDpi(acc.y.value, acc.unit).value && r.dpiDetected
    ensures r.dpiX != st.dpiX ==> 1 <= r.dpiX <= 10000
    ensures r.dpiY != st.dpiY ==> 1 <= r.dpiY <= 10000
    ensures r.dpiDetected <==> st.dpiDetected || (acc.x.Some? && ExifDpi(acc.x.value, acc.unit).Some?) || (acc.y.Some? && ExifDpi(acc.y.value, acc.unit).Some?)
    ensures !(acc.x.Some? && ExifDpi(acc.x.value, acc.unit).Some?) ==> r.dpiX == st.dpiX
    ensures !(acc.y.Some? && ExifDpi(acc.y.value, acc.unit).Some?) ==> r.dpiY == st.dpiY
  {
    if acc.x.None? && acc.y.None? then st
    else
      var dx := if acc.x.Some? then ExifDpi(acc.x.value, acc.unit) else None;
      var dy := if acc.y.Some? then ExifDpi(acc.y.value, acc.unit) else None;
      var st1 := if dx.Some? then st.(dpiX := dx.value, dpiDetected := true) else st;
      if dy.Some? then st1.(dpiY := dy.value, dpiDetected := true) else st1
  }

  /** The whole APP1 handler: locate the directory, collect its entries, apply them. */
  function ExifSegment(b: seq<Byte>, ss: nat, se: nat, st: RasterState): (r: RasterState)
    ensures r == st.(dpiX := r.dpiX, dpiY := r.dpiY, dpiDetected := r.dpiDetected)
    ensures st.dpiDetected ==> r.dpiDetected
    ensures r.dpiX != st.dpiX ==> 1 <= r.dpiX <= 10000
    ensures r.dpiY != st.dpiY ==> 1 <= r.dpiY <= 10000
    ensures ExifDirectory(b, ss, se).None? ==> r == st
    ensures ExifDirectory(b, ss, se).Some? ==>
      var acc := ExifEntries(b, se, ExifDirectory(b, ss, se).value, 0, ExifStart);
      ValidAcc(acc) && r == ApplyExif(acc, st)
  {
    match ExifDirectory(b, ss, se)
    case None => st
    case Some(d) =>
      ExifEntriesValid(b, se, d, 0, ExifStart);
      ApplyExif(ExifEntries(b, se, d, 0, ExifStart), st)
  }

  /** The APP1 handler as the analyzer runs it, with its entry loop. */
  method ExifHandler(b: seq<Byte>, ss: nat, se: nat, st: RasterState) returns (r: RasterState)
    ensures r == ExifSegment(b, ss, se, st)
  {
    var dir := ExifDirectory(b, ss, se);
    if dir.None? {
      return st;
    }
    var acc := ScanEntries(b, se, dir.value);
    r := ApplyExif(acc, st);
  }

  /**
   * The other copy of the analyzer lets JFIF win: once a resolution has been
   * detected, EXIF values are ignored.
   */
  function ApplyExifJfifFirst(acc: ExifAcc, st: RasterState): (r: RasterState)
    requires ValidAcc(acc)
    ensures st.dpiDetected ==> r == st
    ensures !st.dpiDetected ==> r == ApplyExif(acc, st)
  {
    if st.dpiDetected then st else ApplyExif(acc, st)
  }

  /**
   * The two precedence rules differ exactly when JFIF already set a resolution
   * and EXIF carries a usable one: a 300 dpi JFIF density and a 600 dpi EXIF
   * XResolution give 600 in one copy and 300 in the other.
   */
  lemma PrecedenceDiffers(st: RasterState)
    requires st.dpiDetected && st.dpiX == 300
    ensures ApplyExif(ExifAcc(Some(Ratio(600, 1)), None, 2), st).dpiX == 600
    ensures ApplyExifJfifFirst(ExifAcc(Some(Ratio(600, 1)), None, 2), st).dpiX == 300
  {
    assert ExifDpi(Ratio(600, 1), 2) == Some(600);
  }
}
