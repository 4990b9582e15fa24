/**
 * The Photoshop reader of the JPEG analyzer (APP13 segments). The payload after
 * "Photoshop 3.0\0" is a run of image resource blocks, each
 *   "8BIM" | id (2) | Pascal name padded to even length | data size (4) | data padded to even length,
 * as in the Image Resources section of the Adobe Photoshop File Formats
 * Specification. The reader looks for resource 0x03ED (ResolutionInfo).
 */
module Photoshop {
  import opened Wrappers
  import opened ByteView
  import opened Rational
  import opened Raster

  /** "Photoshop 3.0" followed by a NUL byte. */
  const PhotoshopSignature: seq<Byte> :=
    [0x50, 0x68, 0x6F, 0x74, 0x6F, 0x73, 0x68, 0x6F, 0x70, 0x20, 0x33, 0x2E, 0x30, 0x00]

  /** The ResolutionInfo resource. */
  const ResolutionInfoId: nat := 0x03ED

  /** Resolution unit value meaning pixels per centimetre. */
  const PixelsPerCm: nat := 2

  /** `x & ~1`: clears the lowest bit (for negative `x` too, since `%` never yields a negative here). */
  function ClearLowBit(x: int): (y: int)
    ensures y % 2 == 0
    ensures y == x || y == x - 1
  {
    x - x % 2
  }

  /** Length of the name field, its length byte included, padded to even: `(n + 1 + 1) & ~1`. */
  function PaddedNameLength(n: Byte): (p: nat)
  {
    ClearLowBit(n + 2)
  }

  /**
   * The other copy of the analyzer pads the name as `n + (n % 2 == 0 ? 1 : 0) + 1`;
   * both formulas give the same even length, one or two bytes longer than the name.
   */
  lemma PaddingFormulasAgree(n: Byte)
    ensures PaddedNameLength(n) == n + (if n % 2 == 0 then 1 else 0) + 1
    ensures PaddedNameLength(n) % 2 == 0 && n + 1 <= PaddedNameLength(n) <= n + 2
  {
  }

  /** "8BIM" at `pos`. */
  predicate IsBlockStart(b: seq<Byte>, pos: int)
  {
    At(b, pos) == 0x38 && At(b, pos + 1) == 0x42 && At(b, pos + 2) == 0x49 && At(b, pos + 3) == 0x4D
  }

  /** Where the data size of the block at `pos` is stored: after the signature, the id and the padded name. */
  function SizePos(b: seq<Byte>, pos: nat): (p: nat)
    ensures pos + 8 <= p <= pos + 263
  {
    pos + 6 + PaddedNameLength(At(b, pos + 6))
  }

  /** The outcome of one pass of the scanning loop. */
  datatype ScanStep =
    | Exit                 // the loop ends without a ResolutionInfo block
    | Found(dataPos: nat)  // a ResolutionInfo block whose 16 data bytes lie inside the segment
    | Next(pos: int)       // the loop goes on at `pos`

  /**
   * One pass of the scanning loop at `pos` for a segment ending at `se`. With
   * `asWritten` the data size is read as a signed 32-bit number and padded with
   * 32-bit `& ~1`, as the analyzer does; otherwise it is read unsigned, as the
   * format defines it.
   */
  function BlockStep(b: seq<Byte>, pos: nat, se: nat, asWritten: bool): (s: ScanStep)
    ensures pos + 12 >= se ==> s == Exit
    ensures s.Found? ==> s.dataPos + 16 <= se && IsBlockStart(b, pos) && BE16(b, pos + 4) == ResolutionInfoId
    ensures s.Found? ==> s.dataPos == SizePos(b, pos) + 4
    ensures !IsBlockStart(b, pos) && pos + 12 < se ==> s == Next(pos + 1)
    ensures IsBlockStart(b, pos) && pos + 12 < se && SizePos(b, pos) + 4 > se ==> s == Exit
    ensures IsBlockStart(b, pos) && BE16(b, pos + 4) == ResolutionInfoId && SizePos(b, pos) + 20 <= se ==>
      s == Found(SizePos(b, pos) + 4)
    ensures (!asWritten && IsBlockStart(b, pos) && pos + 12 < se && SizePos(b, pos) + 4 <= se
      && !(BE16(b, pos + 4) == ResolutionInfoId && SizePos(b, pos) + 20 <= se)) ==>
      s == Next(SizePos(b, pos) + 4 + BE32(b, SizePos(b, pos)) + BE32(b, SizePos(b, pos)) % 2)
    ensures !asWritten && s.Next? ==> s.pos > pos
  {
    if pos + 12 >= se then Exit
    else if !IsBlockStart(b, pos) then Next(pos + 1)
    else
      var sizePos := SizePos(b, pos);
      if sizePos + 4 > se then Exit
      else
        var dataPos := sizePos + 4;
        if BE16(b, pos + 4) == ResolutionInfoId && dataPos + 16 <= se then Found(dataPos)
        else if asWritten then
          var size := ToInt32(BE32(b, sizePos));
          Next(dataPos + ClearLowBit(ToInt32((size + 1) % 0x1_0000_0000)))
        else
          var size := BE32(b, sizePos);
          Next(dataPos + size + size % 2)
  }

  /** A ResolutionInfo block starts at `p`, its data at `dataPos`, and its 16 data bytes fit before `se`. */
  predicate IsResolutionInfoAt(b: seq<Byte>, p: nat, se: nat, dataPos: nat)
  {
    IsBlockStart(b, p) && BE16(b, p + 4) == ResolutionInfoId && dataPos == SizePos(b, p) + 4 && dataPos + 16 <= se
  }

  /** The scanning loop from `pos` on, with the size read unsigned: the start of the ResolutionInfo data, if any. */
  function ResolutionBlock(b: seq<Byte>, pos: nat, se: nat): (r: Option<nat>)
    ensures r.Some? ==> r.value + 16 <= se
    ensures IsBlockStart(b, pos) && BE16(b, pos + 4) == ResolutionInfoId && SizePos(b, pos) + 20 <= se ==>
      r == Some(SizePos(b, pos) + 4)
    decreases se - pos
  {
    match BlockStep(b, pos, se, false)
    case Exit => None
    case Found(dataPos) => Some(dataPos)
    case Next(next) => ResolutionBlock(b, next, se)
  }

  /** Whatever the scan reports is the data of a ResolutionInfo block at or after `pos`. */
  lemma {:induction false} ResolutionBlockFound(b: seq<Byte>, pos: nat, se: nat)
    ensures var r := ResolutionBlock(b, pos, se);
      r.Some? ==> exists p :: pos <= p && IsResolutionInfoAt(b, p, se, r.value)
    decreases se - pos
  {
    match BlockStep(b, pos, se, false)
    case Exit =>
    case Found(dataPos) =>
      assert IsResolutionInfoAt(b, pos, se, dataPos);
    case Next(next) =>
      ResolutionBlockFound(b, next, se);
  }

  /** With the size read unsigned, every pass moves forward, so the scan ends within `se - pos` passes. */
  lemma {:induction false} ScanMakesProgress(b: seq<Byte>, pos: nat, se: nat)
    ensures BlockStep(b, pos, se, false).Next? ==> BlockStep(b, pos, se, false).pos >= pos + 1
    ensures BlockStep(b, pos, se, false).Next? && IsBlockStart(b, pos) ==> BlockStep(b, pos, se, false).pos >= pos + 10
  {
  }

  /**
   * Bytes that start no block are passed over one at a time: the scan from `pos`
   * finds what the scan from the first possible block start `q` finds.
   */
  lemma {:induction false} ScanSkipsNonBlocks(b: seq<Byte>, pos: nat, q: nat, se: nat)
    requires pos <= q && q + 12 < se
    requires forall p :: pos <= p < q ==> !IsBlockStart(b, p)
    ensures ResolutionBlock(b, pos, se) == ResolutionBlock(b, q, se)
    decreases q - pos
  {
    if pos < q {
      assert BlockStep(b, pos, se, false) == Next(pos + 1);
      ScanSkipsNonBlocks(b, pos + 1, q, se);
    }
  }

  /** A ResolutionInfo block after a run of bytes that start no block is the one the scan finds. */
  lemma FirstBlockFound(b: seq<Byte>, pos: nat, q: nat, se: nat)
    requires pos <= q && IsBlockStart(b, q) && BE16(b, q + 4) == ResolutionInfoId && SizePos(b, q) + 20 <= se
    requires forall p :: pos <= p < q ==> !IsBlockStart(b, p)
    ensures ResolutionBlock(b, pos, se) == Some(SizePos(b, q) + 4)
  {
    ScanSkipsNonBlocks(b, pos, q, se);
  }

  /**
   * A segment payload on which the analyzer's own loop never ends: a block at 4
   * whose data size bytes are FF FF FF F0 (-16 when read signed) sends the scan
   * back to 0, and the scan then walks forward to the same block again. Sizes
   * from 0x7FFF_FFFF up to FFFF_FFF2 (with an empty name) send the signed scan
   * back in the same way.
   */
  const LoopingPayload: seq<Byte> :=
    [0, 0, 0, 0, 0x38, 0x42, 0x49, 0x4D, 0, 0, 0, 0, 0xFF, 0xFF, 0xFF, 0xF0, 0]

  /** As written, the scan over `LoopingPayload` cycles 0, 1, 2, 3, 4, 0, … and never exits. */
  lemma AsWrittenScanCycles()
    ensures forall pos :: 0 <= pos < 4 ==> BlockStep(LoopingPayload, pos, |LoopingPayload|, true) == Next(pos + 1)
    ensures BlockStep(LoopingPayload, 4, |LoopingPayload|, true) == Next(0)
  {
    var b := LoopingPayload;
    assert !IsBlockStart(b, 0) && !IsBlockStart(b, 1) && !IsBlockStart(b, 2) && !IsBlockStart(b, 3);
    BlockAtFourGoesBack();
  }

  /** The block at 4: an empty name, a resource id other than ResolutionInfo, and a size of -16 read signed. */
  lemma BlockAtFourGoesBack()
    ensures BlockStep(LoopingPayload, 4, |LoopingPayload|, true) == Next(0)
  {
    var b := LoopingPayload;
    assert IsBlockStart(b, 4) && At(b, 10) == 0;
    assert PaddedNameLength(0) == 2;
    assert BE16(b, 8) == 0;
    assert BE32(b, 12) == 0xFFFF_FFF0;
    var size := ToInt32(0xFFFF_FFF0);
    assert size == -16;
    assert (size + 1) % 0x1_0000_0000 == 0xFFFF_FFF1;
    assert ToInt32(0xFFFF_FFF1) == -15;
    assert ClearLowBit(-15) == -16;
  }

  /**
   * The signed step does not always go back. Its distance from `pos` is the
   * header (at least 12 bytes) plus `(size + 1) & ~1`, so sizes FFFF_FFF5 to
   * FFFF_FFFF after an empty name move the scan forward by less than the header.
   * In this payload a block at 4 with size FF FF FF FF is followed at 16 by a
   * ResolutionInfo block of 300 pixels per inch on both axes.
   */
  const SkippingPayload: seq<Byte> :=
    [0, 0, 0, 0, 0x38, 0x42, 0x49, 0x4D, 0x04, 0x04, 0, 0, 0xFF, 0xFF, 0xFF, 0xFF,
     0x38, 0x42, 0x49, 0x4D, 0x03, 0xED, 0, 0, 0, 0, 0, 0x10,
     0x01, 0x2C, 0, 0, 0, 1, 0, 1, 0x01, 0x2C, 0, 0, 0, 1, 0, 1]

  /** As written, a block whose size reads -1 moves the scan only to its own data. */
  lemma MinusOneSizeStepsIntoData(b: seq<Byte>, pos: nat, se: nat)
    requires IsBlockStart(b, pos) && pos + 12 < se && SizePos(b, pos) + 4 <= se
    requires BE16(b, pos + 4) != ResolutionInfoId
    requires BE32(b, SizePos(b, pos)) == 0xFFFF_FFFF
    ensures BlockStep(b, pos, se, true) == Next(SizePos(b, pos) + 4)
  {
    assert ToInt32(0xFFFF_FFFF) == -1;
    assert ToInt32(0) == 0;
  }

  /** The block at 4 of `SkippingPayload`: an empty name, id 0x0404, size FF FF FF FF. */
  lemma SkippingBlockHeader()
    ensures IsBlockStart(SkippingPayload, 4) && SizePos(SkippingPayload, 4) == 12
    ensures BE16(SkippingPayload, 8) == 0x0404
  {
    var b := SkippingPayload;
    assert |b| == 44;
    assert At(b, 4) == 0x38 && At(b, 5) == 0x42 && At(b, 6) == 0x49 && At(b, 7) == 0x4D;
    assert At(b, 10) == 0 && PaddedNameLength(0) == 2;
    assert At(b, 8) == 4 && At(b, 9) == 4;
  }

  /** Its size field holds FF FF FF FF. */
  lemma SkippingBlockSize()
    ensures BE32(SkippingPayload, 12) == 0xFFFF_FFFF
  {
    var b := SkippingPayload;
    assert |b| == 44 && b[12] == 0xFF && b[13] == 0xFF && b[14] == 0xFF && b[15] == 0xFF;
  }

  /** As written, the block at 4 (size -1 read signed) moves the scan to 16, just past its own header. */
  lemma AsWrittenStepsIntoData()
    ensures BlockStep(SkippingPayload, 4, |SkippingPayload|, true) == Next(16)
  {
    SkippingBlockHeader();
    SkippingBlockSize();
    MinusOneSizeStepsIntoData(SkippingPayload, 4, |SkippingPayload|);
  }

  /** The block at 16 is a ResolutionInfo block whose data, at 28, fills the payload. */
  lemma LaterBlockFits()
    ensures BlockStep(SkippingPayload, 16, |SkippingPayload|, true) == Found(28)
  {
    var b := SkippingPayload;
    assert |b| == 44 && b[16] == 0x38 && b[17] == 0x42 && b[18] == 0x49 && b[19] == 0x4D && b[22] == 0;
    assert PaddedNameLength(0) == 2;
    assert b[20] == 0x03 && b[21] == 0xED && BE16(b, 20) == ResolutionInfoId;
  }

  /** The unsigned scan jumps over the whole payload from the block at 4. */
  lemma CorrectedStepLeavesPayload()
    ensures BlockStep(SkippingPayload, 4, |SkippingPayload|, false).Next?
    ensures BlockStep(SkippingPayload, 4, |SkippingPayload|, false).pos >= 44
  {
    SkippingBlockHeader();
    SkippingBlockSize();
  }

  /** The bytes before the first block start no block. */
  lemma SkippingPayloadLeadIn()
    ensures forall p :: 0 <= p < 4 ==> !IsBlockStart(SkippingPayload, p)
  {
    var b := SkippingPayload;
    assert |b| == 44 && b[0] == 0 && b[1] == 0 && b[2] == 0 && b[3] == 0;
  }

  /** So the unsigned scan finds no block in that payload. */
  lemma CorrectedScanMissesLaterBlock()
    ensures ResolutionBlock(SkippingPayload, 0, |SkippingPayload|) == None
  {
    var b := SkippingPayload;
    SkippingPayloadLeadIn();
    ScanSkipsNonBlocks(b, 0, 4, |b|);
    CorrectedStepLeavesPayload();
  }

  /** The ResolutionInfo data at 28 holds 300 pixels per inch on both axes. */
  lemma LaterBlockHolds300Dpi(st: RasterState)
    ensures var r := ApplyResolutionInfo(SkippingPayload, 28, st);
      r.dpiX == 300 && r.dpiY == 300 && r.dpiDetected
  {
    var b := SkippingPayload;
    assert |b| == 44 && b[28] == 0x01 && b[29] == 0x2C && b[30] == 0 && b[31] == 0;
    assert b[32] == 0 && b[33] == 1 && b[36] == 0x01 && b[37] == 0x2C && b[38] == 0 && b[39] == 0;
    assert BE32(b, 28) == 300 * 0x1_0000 && BE32(b, 36) == 300 * 0x1_0000 && BE16(b, 32) == 1;
    assert ToInt32(300 * 0x1_0000) == 300 * 0x1_0000;
    FixedDpiExamples();
  }

  /**
   * On `SkippingPayload` the analyzer's own scan ends and finds the ResolutionInfo
   * block at 16, which sets 300 dpi on both axes, while the unsigned scan finds
   * no block and leaves the resolution as it was.
   */
  lemma AsWrittenFindsLaterBlock(st: RasterState)
    ensures forall pos :: 0 <= pos < 4 ==> BlockStep(SkippingPayload, pos, |SkippingPayload|, true) == Next(pos + 1)
    ensures BlockStep(SkippingPayload, 4, |SkippingPayload|, true) == Next(16)
    ensures BlockStep(SkippingPayload, 16, |SkippingPayload|, true) == Found(28)
    ensures var r := ApplyResolutionInfo(SkippingPayload, 28, st);
      r.dpiX == 300 && r.dpiY == 300 && r.dpiDetected
    ensures ResolutionBlock(SkippingPayload, 0, |SkippingPayload|) == None
  {
    SkippingPayloadLeadIn();
    AsWrittenStepsIntoData();
    LaterBlockFits();
    LaterBlockHolds300Dpi(st);
    CorrectedScanMissesLaterBlock();
  }

  /** A block with an empty name and size FF FF FF F4 (-12 read signed) keeps the signed scan where it is. */
  const StallingPayload: seq<Byte> :=
    [0x38, 0x42, 0x49, 0x4D, 0, 0, 0, 0, 0xFF, 0xFF, 0xFF, 0xF4, 0, 0, 0, 0]

  lemma AsWrittenScanStalls()
    ensures BlockStep(StallingPayload, 0, |StallingPayload|, true) == Next(0)
  {
    var b := StallingPayload;
    assert IsBlockStart(b, 0) && At(b, 6) == 0;
    assert PaddedNameLength(0) == 2;
    assert BE16(b, 4) == 0;
    assert BE32(b, 8) == 0xFFFF_FFF4;
    assert ToInt32(0xFFFF_FFF4) == -12;
    assert ToInt32(0xFFFF_FFF5) == -11;
    assert ClearLowBit(-11) == -12;
  }

  /**
   * A size of 0x7FFF_FFFF has its top bit clear, yet `size + 1` overflows to
   * -2^31 in 32 bits, so the signed scan jumps back by 2^31.
   */
  lemma LargestPositiveSizeGoesBack(b: seq<Byte>, pos: nat, se: nat)
    requires IsBlockStart(b, pos) && pos + 12 < se && SizePos(b, pos) + 4 <= se
    requires BE16(b, pos + 4) != ResolutionInfoId
    requires BE32(b, SizePos(b, pos)) == 0x7FFF_FFFF
    ensures BlockStep(b, pos, se, true) == Next(SizePos(b, pos) + 4 - 0x8000_0000)
  {
    assert ToInt32(0x7FFF_FFFF) == 0x7FFF_FFFF;
    assert ToInt32(0x8000_0000) == -0x8000_0000;
  }

  /** The analyzer's own step and the unsigned one agree whenever the data size is below 0x7FFF_FFFF. */
  lemma StepsAgreeOnSmallSizes(b: seq<Byte>, pos: nat, se: nat)
    requires BE32(b, pos + 6 + PaddedNameLength(At(b, pos + 6))) < 0x7FFF_FFFF
    ensures BlockStep(b, pos, se, true) == BlockStep(b, pos, se, false)
  {
    var size := BE32(b, pos + 6 + PaddedNameLength(At(b, pos + 6)));
    assert ToInt32(size) == size;
    assert (size + 1) % 0x1_0000_0000 == size + 1;
    assert ToInt32(size + 1) == size + 1;
    assert ClearLowBit(size + 1) == size + size % 2;
  }

  /** Read unsigned, the same block's size sends the scan far past the segment, which ends it. */
  lemma CorrectedScanEnds()
    ensures ResolutionBlock(LoopingPayload, 0, |LoopingPayload|) == None
  {
    var b := LoopingPayload;
    assert !IsBlockStart(b, 0) && !IsBlockStart(b, 1) && !IsBlockStart(b, 2) && !IsBlockStart(b, 3);
    assert BlockStep(b, 4, |b|, false).Next?;
    assert BlockStep(b, 4, |b|, false).pos >= 17;
  }

  /** The scanning `while` loop, stopping at the first ResolutionInfo block. */
  method ScanResolutionBlocks(b: seq<Byte>, start: nat, se: nat) returns (found: Option<nat>)
    ensures found == ResolutionBlock(b, start, se)
    ensures found.Some? ==> found.value + 16 <= se
  {
    var pos := start;
    while pos + 12 < se
      invariant ResolutionBlock(b, pos, se) == ResolutionBlock(b, start, se)
      decreases se - pos
    {
      if !IsBlockStart(b, pos) {
        assert BlockStep(b, pos, se, false) == Next(pos + 1);
        pos := pos + 1;
        continue;
      }
      var sizePos := SizePos(b, pos);
      if sizePos + 4 > se {
        assert BlockStep(b, pos, se, false) == Exit;
        return None;
      }
      var size := BE32(b, sizePos);
      var dataPos := sizePos + 4;
      if BE16(b, pos + 4) == ResolutionInfoId && dataPos + 16 <= se {
        assert BlockStep(b, pos, se, false) == Found(dataPos);
        return Some(dataPos);
      }
      assert BlockStep(b, pos, se, false) == Next(dataPos + size + size % 2);
      pos := dataPos + size + size % 2;
    }
    return None;
  }

  /** A Fixed 16.16 resolution converted to dots per inch, if it lies between 1 and 10000. */
  function FixedDpi(fixed: int, unit: nat): (dpi: Option<int>)
    ensures dpi.Some? <==> InDpiRange(Ratio(fixed, 0x1_0000))
    ensures dpi.Some? && unit != PixelsPerCm ==> 1 <= dpi.value <= 10000
    ensures dpi.Some? && unit == PixelsPerCm ==> 3 <= dpi.value <= 25400
    ensures dpi.Some? && unit != PixelsPerCm ==> dpi.value == Round(Ratio(fixed, 0x1_0000))
    ensures dpi.Some? && unit == PixelsPerCm ==> dpi.value == Round(Scale254(Ratio(fixed, 0x1_0000)))
  {
    var q := Ratio(fixed, 0x1_0000);
    if InDpiRange(q) then
      RoundInDpiRange(q);
      RoundScaledInRange(q);
      Some(if unit == PixelsPerCm then Round(Scale254(q)) else Round(q))
    else None
  }

  /**
   * 300 pixels per inch is stored as 300 × 65536; 118 pixels per centimetre is
   * 299.72 dpi, which rounds to 300.
   */
  lemma FixedDpiExamples()
    ensures FixedDpi(300 * 0x1_0000, 1) == Some(300)
    ensures FixedDpi(118 * 0x1_0000, PixelsPerCm) == Some(300)
  {
    RoundUnique(Ratio(300 * 0x1_0000, 0x1_0000), 300);
    assert Scale254(Ratio(118 * 0x1_0000, 0x1_0000)) == Ratio(118 * 0x1_0000 * 254, 0x1_0000 * 100);
    RoundUnique(Ratio(118 * 0x1_0000 * 254, 0x1_0000 * 100), 300);
  }

  /**
   * Applies a ResolutionInfo block whose data starts at `dataPos`: horizontal
   * resolution (Fixed 16.16, signed) at +0, its unit at +4, vertical resolution
   * at +8. Both axes use the horizontal unit.
   */
  function ApplyResolutionInfo(b: seq<Byte>, dataPos: nat, st: RasterState): (r: RasterState)
    ensures r == st.(dpiX := r.dpiX, dpiY := r.dpiY, dpiDetected := r.dpiDetected)
    ensures r.dpiX != st.dpiX ==> 1 <= r.dpiX <= 25400
    ensures r.dpiY != st.dpiY ==> 1 <= r.dpiY <= 25400
    ensures r.dpiDetected <==> (st.dpiDetected
      || FixedDpi(ToInt32(BE32(b, dataPos)), BE16(b, dataPos + 4)).Some?
      || FixedDpi(ToInt32(BE32(b, dataPos + 8)), BE16(b, dataPos + 4)).Some?)
    ensures var h := FixedDpi(ToInt32(BE32(b, dataPos)), BE16(b, dataPos + 4));
      r.dpiX == if h.Some? then h.value else st.dpiX
    ensures var v := FixedDpi(ToInt32(BE32(b, dataPos + 8)), BE16(b, dataPos + 4));
      r.dpiY == if v.Some? then v.value else st.dpiY
  {
    var unit := BE16(b, dataPos + 4);
    var h := FixedDpi(ToInt32(BE32(b, dataPos)), unit);
    var v := FixedDpi(ToInt32(BE32(b, dataPos + 8)), unit);
    var st1 := if h.Some? then st.(dpiX := h.value, dpiDetected := true) else st;
    if v.Some? then st1.(dpiY := v.value, dpiDetected := true) else st1
  }

  /**
   * The whole APP13 handler for the payload `b[ss..se]`. It runs only while no
   * resolution has been detected, so it never overrides JFIF or EXIF.
   */
  function PhotoshopSegment(b: seq<Byte>, ss: nat, se: nat, st: RasterState): (r: RasterState)
    ensures st.dpiDetected ==> r == st
    ensures r == st.(dpiX := r.dpiX, dpiY := r.dpiY, dpiDetected := r.dpiDetected)
    ensures r.dpiX != st.dpiX ==> 1 <= r.dpiX <= 25400
    ensures r.dpiY != st.dpiY ==> 1 <= r.dpiY <= 25400
    ensures (!st.dpiDetected && se >= ss + 14 && HasSignature(b, ss, PhotoshopSignature)
      && ResolutionBlock(b, ss + 14, se).Some?) ==>
      r == ApplyResolutionInfo(b, ResolutionBlock(b, ss + 14, se).value, st)
    ensures (se < ss + 14 || !HasSignature(b, ss, PhotoshopSignature) || ResolutionBlock(b, ss + 14, se).None?) ==> r == st
  {
    if st.dpiDetected || se < ss + 14 || !HasSignature(b, ss, PhotoshopSignature) then st
    else
      match ResolutionBlock(b, ss + 14, se)
      case None => st
      case Some(dataPos) => ApplyResolutionInfo(b, dataPos, st)
  }

  /** The APP13 handler as the analyzer runs it, with its scanning loop. */
  method PhotoshopHandler(b: seq<Byte>, ss: nat, se: nat, st: RasterState) returns (r: RasterState)
    ensures r == PhotoshopSegment(b, ss, se, st)
  {
    if st.dpiDetected || se < ss + 14 || !HasSignature(b, ss, PhotoshopSignature) {
      return st;
    }
    var found := ScanResolutionBlocks(b, ss + 14, se);
    r := if found.Some? then ApplyResolutionInfo(b, found.value, st) else st;
  }
}
