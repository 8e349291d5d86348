/** The display object of the SSD1306 driver (Adafruit_SSD1306.cpp): its framebuffer, which
    the drawing routines update in place, and the command sequences it sends through its
    connection. Each drawing method is proved against the buffer function of module
    FrameBuffer that describes it; each command method appends exactly the framed bytes of
    a command list of this module. */
module Display {
  import opened Profiles
  import opened FrameBuffer
  import opened Transport
  import opened Controller

  // ---------------------------------------------------------------------------
  // Stages of the vertical run, byte by byte

  /** `buf` with the bytes of column x in bands 0 .. band-1 written as the vertical run
      writes them. */
  function ColumnUpTo(buf: seq<Byte>, W: int, x: int, y0: int, y1: int, color: int, band: int): (r: seq<Byte>)
    requires 0 < W
    ensures |r| == |buf|
  {
    seq(|buf|, i requires 0 <= i < |buf| =>
      if i % W == x && i / W < band then VByte(buf[i], BandMask(y0, y1, i / W), color) else buf[i])
  }

  /** A band that holds none of the rows [y0, y1) has an empty mask, and its byte is kept. */
  lemma BandOutside(b: Byte, y0: int, y1: int, band: int, color: int)
    requires 8 * band + 8 <= y0 || y1 <= 8 * band
    ensures BandMask(y0, y1, band) == 0 && VByte(b, BandMask(y0, y1, band), color) == b
  {
    RangeMaskEmpty(Clamp8(y0 - 8 * band), Clamp8(y1 - 8 * band));
  }

  lemma ColumnIndex(W: int, x: int, band: int)
    requires 0 <= x < W && 0 <= band
    ensures (band * W + x) % W == x && (band * W + x) / W == band
    ensures forall i | 0 <= i && i % W == x && i / W == band :: i == band * W + x
  {
    DivModUnique(x, band, W);
  }

  /** Nothing is written before the band that holds the first row. */
  lemma ColumnStart(buf: seq<Byte>, W: int, x: int, y0: int, y1: int, color: int)
    requires 0 < W && 0 <= y0
    ensures ColumnUpTo(buf, W, x, y0, y1, color, y0 / 8) == buf
  {
    forall i | 0 <= i < |buf| && i % W == x && i / W < y0 / 8
      ensures VByte(buf[i], BandMask(y0, y1, i / W), color) == buf[i]
    {
      BandOutside(buf[i], y0, y1, i / W, color);
    }
  }

  /** Writing the byte of column x in band `band` moves the stage on by one band. */
  lemma ColumnStep(buf: seq<Byte>, W: int, x: int, y0: int, y1: int, color: int, band: int)
    requires 0 <= x < W && 0 <= band && band * W + x < |buf|
    ensures ColumnUpTo(buf, W, x, y0, y1, color, band)[band * W + x] == buf[band * W + x]
    ensures ColumnUpTo(buf, W, x, y0, y1, color, band)[band * W + x :=
              VByte(buf[band * W + x], BandMask(y0, y1, band), color)]
         == ColumnUpTo(buf, W, x, y0, y1, color, band + 1)
  {
    ColumnIndex(W, x, band);
  }

  /** Once the stage is past the last row, the whole run is written. */
  lemma ColumnDone(buf: seq<Byte>, W: int, x: int, y0: int, y1: int, color: int, band: int)
    requires 0 < W && y1 <= 8 * band
    ensures ColumnUpTo(buf, W, x, y0, y1, color, band) == VLineBytes(buf, W, x, y0, y1, color)
  {
    forall i | 0 <= i < |buf| && i % W == x && band <= i / W
      ensures VByte(buf[i], BandMask(y0, y1, i / W), color) == buf[i]
    {
      MulLe(band, i / W, 8);
      BandOutside(buf[i], y0, y1, i / W, color);
    }
  }

  /** The head byte: premask[mod], narrowed by 0xFF >> (mod - h) when the run ends inside
      the byte, is the band's mask, and it is never the whole byte. */
  lemma HeadMask(y0: int, h: int, m: int, mask: Byte)
    requires 0 <= y0 && y0 % 8 != 0 && 0 < h && m == 8 - y0 % 8
    requires mask == if h < m then PREMASK[m] & ((0xFF as Byte) >> (m - h)) else PREMASK[m]
    ensures mask == BandMask(y0, y0 + h, y0 / 8) && mask != 0xFF
  {
    if h < m {
      NarrowHeadMask(y0, h, m);
    } else {
      WholeHeadMask(y0, h, m);
    }
  }

  /** The run ends inside its first band: the rows y0 % 8 .. y0 % 8 + h - 1 of it. */
  lemma NarrowHeadMask(y0: int, h: int, m: int)
    requires 0 <= y0 && y0 % 8 != 0 && 0 < h < m && m == 8 - y0 % 8
    ensures PREMASK[m] & ((0xFF as Byte) >> (m - h)) == BandMask(y0, y0 + h, y0 / 8) != 0xFF
  {
    var lo := y0 % 8;
    assert BandMask(y0, y0 + h, y0 / 8) == RangeMask(lo, lo + h);
    PremaskIsHighBits(m);
    ShiftedOnesAreLowBits(m - h);
    RangeMaskMeet(lo, 8, 0, lo + h);
    RangeMaskFull(lo, lo + h);
  }

  /** The run goes past its first band: the rows y0 % 8 .. 7 of it. */
  lemma WholeHeadMask(y0: int, h: int, m: int)
    requires 0 <= y0 && y0 % 8 != 0 && m <= h && m == 8 - y0 % 8
    ensures PREMASK[m] == BandMask(y0, y0 + h, y0 / 8) != 0xFF
  {
    var lo := y0 % 8;
    assert BandMask(y0, y0 + h, y0 / 8) == RangeMask(lo, 8);
    PremaskIsHighBits(m);
    RangeMaskFull(lo, 8);
  }

  /** A band wholly inside the run has the full mask. */
  lemma MiddleMask(y0: int, y1: int, band: int)
    requires y0 <= 8 * band && 8 * band + 8 <= y1
    ensures BandMask(y0, y1, band) == 0xFF
  {
    RangeMaskFull(0, 8);
  }

  /** The tail byte: postmask[h] for the h rows left, never the whole byte. */
  lemma TailMask(y0: int, y1: int, band: int)
    requires y0 <= 8 * band && 0 < y1 - 8 * band < 8
    ensures POSTMASK[y1 - 8 * band] == BandMask(y0, y1, band) != 0xFF
  {
    PostmaskIsLowBits(y1 - 8 * band);
    RangeMaskFull(0, y1 - 8 * band);
  }

  /** Where the head byte leaves the run: the first band is y0 / 8; a run that starts
      inside it either ends inside it or continues from the start of the next band. */
  lemma HeadBand(y0: int, y1: int, band: int)
    requires 0 <= y0 < y1 && band == y0 / 8
    ensures y0 % 8 == 0 ==> y0 == 8 * band && y1 - y0 == y1 - 8 * band
    ensures y0 % 8 != 0 && y1 - y0 < 8 - y0 % 8 ==> y1 <= 8 * (band + 1)
    ensures y0 % 8 != 0 && y1 - y0 >= 8 - y0 % 8 ==>
      y1 - y0 - (8 - y0 % 8) == y1 - 8 * (band + 1) && y0 <= 8 * (band + 1)
  {
  }

  /** One band further down the same column is W bytes on. */
  lemma NextBand(W: int, x: int, band: int)
    ensures (band + 1) * W + x == band * W + x + W
  {
  }

  /** A band that still holds rows of a run inside the panel is a band of the panel. */
  lemma TailBand(H: int, y1: int, band: int)
    requires 0 < H && H % 8 == 0 && 8 * band < y1 <= H
    ensures band < H / 8
  {
  }

  /** A run of columns of one band lies inside the buffer. */
  lemma RowFits(W: int, H: int, y: int, x0: int, n: int, row: int)
    requires Geometry(W, H) && 0 <= y < H && 0 <= x0 && x0 + n <= W && row == (y / 8) * W
    ensures 0 <= row && row + x0 + n <= W * (H / 8)
  {
    MulLe(0, y / 8, W);
    MulLe(y / 8 + 1, H / 8, W);
    assert (y / 8 + 1) * W == (y / 8) * W + W;
  }

  /** The byte of column x in a band of the panel lies inside the buffer. */
  lemma BandFits(W: int, H: int, band: int, x: int)
    requires Geometry(W, H) && 0 <= x < W && 0 <= band < H / 8
    ensures 0 <= band * W + x < W * (H / 8)
  {
    MulLe(band + 1, H / 8, W);
    MulLe(0, band, W);
    assert (band + 1) * W == band * W + W;
  }

  /** `buf` with bytes lo .. hi-1 painted through `mask`. */
  function PaintedRange(buf: seq<Byte>, lo: int, hi: int, mask: Byte, color: int): (r: seq<Byte>)
    ensures |r| == |buf|
  {
    seq(|buf|, i requires 0 <= i < |buf| => if lo <= i < hi then Paint(buf[i], mask, color) else buf[i])
  }

  /** Painting one byte more. */
  lemma PaintedRangeStep(buf: seq<Byte>, lo: int, hi: int, mask: Byte, color: int)
    requires 0 <= lo <= hi < |buf|
    ensures PaintedRange(buf, lo, hi, mask, color)[hi] == buf[hi]
    ensures PaintedRange(buf, lo, hi, mask, color)[hi := Paint(buf[hi], mask, color)]
         == PaintedRange(buf, lo, hi + 1, mask, color)
  {
  }

  lemma PaintedRangeEmpty(buf: seq<Byte>, lo: int, mask: Byte, color: int)
    ensures PaintedRange(buf, lo, lo, mask, color) == buf
  {
  }

  /** A colour outside the switch paints nothing. */
  lemma PaintedRangeUndefinedColour(buf: seq<Byte>, lo: int, hi: int, mask: Byte, color: int)
    requires !DefinedColour(color)
    ensures PaintedRange(buf, lo, hi, mask, color) == buf
  {
  }

  /** After clipping, the row run is bytes x0 .. x0+n-1 of row y's band painted through
      row y's bit. */
  lemma HLineSpecClipped(buf: seq<Byte>, W: int, H: int, x: Int16, y: Int16, w: Int16, color: int,
                         x0: int, n: int, row: int)
    requires Sized(buf, W, H) && 0 <= y < H && ClipRun(x, w, W) == (x0, n) && n > 0 && row == (y / 8) * W
    ensures HLineSpec(buf, W, H, x, y, w, color) == PaintedRange(buf, row + x0, row + x0 + n, Bit(y % 8), color)
  {
  }

  // ---------------------------------------------------------------------------
  // Command sequences

  /** The 26 command bytes of begin(), after the transport is up and the reset pulse given,
      in four groups. The supply mode chooses the charge pump setting, the contrast and the
      precharge period. */
  function InitCommands(p: Personality, vcc: Byte): seq<Byte>
    requires WellFormed(p)
  {
    var ext := vcc == EXTERNALVCC;
    InitTiming((p.h - 1) as Byte)
    + InitLayout(if ext then 0x10 else 0x14, p.compins)
    + InitLevels(if ext then p.contrastExtVcc else p.contrast, if ext then 0x22 else 0xF1)
    + InitFinish()
  }

  /** Display off, the suggested clock ratio and the multiplex ratio (rows - 1). */
  function InitTiming(mux: Byte): seq<Byte>
  {
    [DISPLAYOFF, SETDISPLAYCLOCKDIV, 0x80, SETMULTIPLEX, mux]
  }

  /** No offset, start line 0, the charge pump, horizontal addressing, column 127 mapped to
      segment 0, COM scan from the last row, and the COM pin configuration. */
  function InitLayout(pump: Byte, compins: Byte): seq<Byte>
  {
    [SETDISPLAYOFFSET, 0x00, STARTLINE_ZERO, CHARGEPUMP, pump, MEMORYMODE, 0x00,
     SEGREMAP_COL127, COMSCANDEC, SETCOMPINS, compins]
  }

  /** Contrast, precharge period and VCOMH level. */
  function InitLevels(contrast: Byte, precharge: Byte): seq<Byte>
  {
    [SETCONTRAST, contrast, SETPRECHARGE, precharge, SETVCOMDETECT, 0x40]
  }

  /** Follow the RAM, normal (not inverted), no scroll, display on. */
  function InitFinish(): seq<Byte>
  {
    [DISPLAYALLON_RESUME, NORMALDISPLAY, DEACTIVATE_SCROLL, DISPLAYON]
  }

  /** invertDisplay(i). */
  function InvertCommands(i: bool): seq<Byte>
  {
    [if i then INVERTDISPLAY else NORMALDISPLAY]
  }

  /** dim(d): the contrast is 0 when dimmed, otherwise a fixed value for the supply mode
      (not the profile's). */
  function DimCommands(d: bool, vcc: Byte): seq<Byte>
  {
    [SETCONTRAST, if d then 0x00 else if vcc == EXTERNALVCC then 0x9F else 0xCF]
  }

  /** startscrollright / startscrollleft: set up a horizontal scroll of pages start .. stop
      at frame interval 0, then start it. */
  function HorizontalScrollCommands(op: Byte, start: Byte, stop: Byte): seq<Byte>
  {
    [op, 0x00, start, 0x00, stop, 0x00, 0xFF, ACTIVATE_SCROLL]
  }

  /** startscrolldiagright / startscrolldiagleft: the vertical scroll area is all the rows,
      then a diagonal scroll of pages start .. stop with a vertical offset of one row. */
  function DiagonalScrollCommands(op: Byte, rows: Byte, start: Byte, stop: Byte): seq<Byte>
  {
    [SET_VERTICAL_SCROLL_AREA, 0x00, rows, op, 0x00, start, 0x00, stop, 0x01, ACTIVATE_SCROLL]
  }

  /** stopscroll. */
  function StopScrollCommands(): seq<Byte>
  {
    [DEACTIVATE_SCROLL]
  }

  /** display(): the column window 0 .. W-1 and the page window 0 .. H/8-1. */
  function DisplayCommands(W: U8, H: U8): seq<Byte>
    requires 0 < W && 8 <= H
  {
    [COLUMNADDR, 0x00, (W - 1) as Byte, PAGEADDR, 0x00, (H / 8 - 1) as Byte]
  }

  // ---------------------------------------------------------------------------
  // What each sequence does to the controller

  /** Two whole commands in a row. */
  lemma ReceiveTwo(s: Panel, cs: seq<Byte>, op1: Byte, args1: seq<Byte>, op2: Byte, args2: seq<Byte>)
    requires s.pending == [] && |args1| == Arity(op1) && |args2| == Arity(op2)
    requires cs == [op1] + args1 + [op2] + args2
    ensures ReceiveAll(s, Cmds(cs)) == Execute(Execute(s, op1, args1), op2, args2)
  {
    ReceiveThen(s, cs, op1, args1, [op2] + args2);
    ReceiveCommand(Execute(s, op1, args1), op2, args2);
  }

  /** Command bytes in two parts. */
  lemma ReceiveSplit(s: Panel, cs: seq<Byte>, a: seq<Byte>, b: seq<Byte>)
    requires cs == a + b
    ensures ReceiveAll(s, Cmds(cs)) == ReceiveAll(ReceiveAll(s, Cmds(a)), Cmds(b))
  {
    CmdsConcat(a, b);
    ReceiveAllConcat(s, Cmds(a), Cmds(b));
  }

  /** A whole command followed by more command bytes. */
  lemma ReceiveThen(s: Panel, cs: seq<Byte>, op: Byte, args: seq<Byte>, rest: seq<Byte>)
    requires s.pending == [] && |args| == Arity(op) && cs == [op] + args + rest
    ensures ReceiveAll(s, Cmds(cs)) == ReceiveAll(Execute(s, op, args), Cmds(rest))
  {
    CmdsConcat([op] + args, rest);
    ReceiveAllConcat(s, Cmds([op] + args), Cmds(rest));
    ReceiveCommand(s, op, args);
  }

  lemma TimingEffect(s: Panel, mux: Byte)
    requires s.pending == []
    ensures ReceiveAll(s, Cmds(InitTiming(mux)))
         == s.(look := s.look.(on := false), drive := s.drive.(clockDiv := 0x80, multiplex := mux))
  {
    var rest := [SETDISPLAYCLOCKDIV, 0x80, SETMULTIPLEX, mux];
    ReceiveThen(s, InitTiming(mux), DISPLAYOFF, [], rest);
    ReceiveTwo(Execute(s, DISPLAYOFF, []), rest, SETDISPLAYCLOCKDIV, [0x80], SETMULTIPLEX, [mux]);
    TimingExecuted(s, mux);
  }

  lemma TimingExecuted(s: Panel, mux: Byte)
    ensures Execute(Execute(Execute(s, DISPLAYOFF, []), SETDISPLAYCLOCKDIV, [0x80]), SETMULTIPLEX, [mux])
         == s.(look := s.look.(on := false), drive := s.drive.(clockDiv := 0x80, multiplex := mux))
  {
  }

  lemma LayoutEffect(s: Panel, pump: Byte, compins: Byte)
    requires s.pending == []
    ensures ReceiveAll(s, Cmds(InitLayout(pump, compins)))
         == s.(drive := s.drive.(displayOffset := 0x00, startLine := 0x00, chargePump := pump,
                                 segmentRemap := true, comScanDescending := true, comPins := compins),
               addr := s.addr.(mode := HORIZONTAL))
  {
    var head := [SETDISPLAYOFFSET, 0x00, STARTLINE_ZERO, CHARGEPUMP, pump];
    var tail := [MEMORYMODE, 0x00, SEGREMAP_COL127, COMSCANDEC, SETCOMPINS, compins];
    ReceiveSplit(s, InitLayout(pump, compins), head, tail);
    LayoutHeadEffect(s, pump);
    LayoutTailEffect(ReceiveAll(s, Cmds(head)), compins);
  }

  lemma LayoutHeadEffect(s: Panel, pump: Byte)
    requires s.pending == []
    ensures ReceiveAll(s, Cmds([SETDISPLAYOFFSET, 0x00, STARTLINE_ZERO, CHARGEPUMP, pump]))
         == s.(drive := s.drive.(displayOffset := 0x00, startLine := 0x00, chargePump := pump))
  {
    var rest := [STARTLINE_ZERO, CHARGEPUMP, pump];
    ReceiveThen(s, [SETDISPLAYOFFSET, 0x00, STARTLINE_ZERO, CHARGEPUMP, pump], SETDISPLAYOFFSET, [0x00], rest);
    PumpEffect(Execute(s, SETDISPLAYOFFSET, [0x00]), pump);
  }

  lemma PumpEffect(s: Panel, pump: Byte)
    requires s.pending == []
    ensures ReceiveAll(s, Cmds([STARTLINE_ZERO, CHARGEPUMP, pump]))
         == s.(drive := s.drive.(startLine := 0x00, chargePump := pump))
  {
    ReceiveTwo(s, [STARTLINE_ZERO, CHARGEPUMP, pump], STARTLINE_ZERO, [], CHARGEPUMP, [pump]);
    PumpExecuted(s, pump);
  }

  lemma PumpExecuted(s: Panel, pump: Byte)
    ensures Execute(Execute(s, STARTLINE_ZERO, []), CHARGEPUMP, [pump])
         == s.(drive := s.drive.(startLine := 0x00, chargePump := pump))
  {
  }

  lemma LayoutTailEffect(s: Panel, compins: Byte)
    requires s.pending == []
    ensures ReceiveAll(s, Cmds([MEMORYMODE, 0x00, SEGREMAP_COL127, COMSCANDEC, SETCOMPINS, compins]))
         == s.(drive := s.drive.(segmentRemap := true, comScanDescending := true, comPins := compins),
               addr := s.addr.(mode := HORIZONTAL))
  {
    var head, tail := [MEMORYMODE, 0x00, SEGREMAP_COL127], [COMSCANDEC, SETCOMPINS, compins];
    ReceiveSplit(s, [MEMORYMODE, 0x00, SEGREMAP_COL127, COMSCANDEC, SETCOMPINS, compins], head, tail);
    AddressingModeEffect(s);
    ComScanEffect(ReceiveAll(s, Cmds(head)), compins);
  }

  lemma AddressingModeEffect(s: Panel)
    requires s.pending == []
    ensures ReceiveAll(s, Cmds([MEMORYMODE, 0x00, SEGREMAP_COL127]))
         == s.(drive := s.drive.(segmentRemap := true), addr := s.addr.(mode := HORIZONTAL))
  {
    ReceiveTwo(s, [MEMORYMODE, 0x00, SEGREMAP_COL127], MEMORYMODE, [0x00], SEGREMAP_COL127, []);
    AddressingModeExecuted(s);
  }

  lemma AddressingModeExecuted(s: Panel)
    ensures Execute(Execute(s, MEMORYMODE, [0x00]), SEGREMAP_COL127, [])
         == s.(drive := s.drive.(segmentRemap := true), addr := s.addr.(mode := HORIZONTAL))
  {
  }

  lemma ComScanEffect(s: Panel, compins: Byte)
    requires s.pending == []
    ensures ReceiveAll(s, Cmds([COMSCANDEC, SETCOMPINS, compins]))
         == s.(drive := s.drive.(comScanDescending := true, comPins := compins))
  {
    ReceiveTwo(s, [COMSCANDEC, SETCOMPINS, compins], COMSCANDEC, [], SETCOMPINS, [compins]);
    ComScanExecuted(s, compins);
  }

  lemma ComScanExecuted(s: Panel, compins: Byte)
    ensures Execute(Execute(s, COMSCANDEC, []), SETCOMPINS, [compins])
         == s.(drive := s.drive.(comScanDescending := true, comPins := compins))
  {
  }

  lemma LevelsEffect(s: Panel, contrast: Byte, precharge: Byte)
    requires s.pending == []
    ensures ReceiveAll(s, Cmds(InitLevels(contrast, precharge)))
         == s.(look := s.look.(contrast := contrast),
               drive := s.drive.(precharge := precharge, vcomDetect := 0x40))
  {
    var rest := [SETPRECHARGE, precharge, SETVCOMDETECT, 0x40];
    ReceiveThen(s, InitLevels(contrast, precharge), SETCONTRAST, [contrast], rest);
    ContrastExecuted(s, contrast);
    ChargeEffect(Execute(s, SETCONTRAST, [contrast]), precharge);
  }

  lemma ContrastExecuted(s: Panel, contrast: Byte)
    ensures Execute(s, SETCONTRAST, [contrast]) == s.(look := s.look.(contrast := contrast))
  {
  }

  lemma ChargeEffect(s: Panel, precharge: Byte)
    requires s.pending == []
    ensures ReceiveAll(s, Cmds([SETPRECHARGE, precharge, SETVCOMDETECT, 0x40]))
         == s.(drive := s.drive.(precharge := precharge, vcomDetect := 0x40))
  {
    ReceiveTwo(s, [SETPRECHARGE, precharge, SETVCOMDETECT, 0x40], SETPRECHARGE, [precharge], SETVCOMDETECT, [0x40]);
    ChargeExecuted(s, precharge);
  }

  lemma ChargeExecuted(s: Panel, precharge: Byte)
    ensures Execute(Execute(s, SETPRECHARGE, [precharge]), SETVCOMDETECT, [0x40])
         == s.(drive := s.drive.(precharge := precharge, vcomDetect := 0x40))
  {
  }

  lemma FinishEffect(s: Panel)
    requires s.pending == []
    ensures ReceiveAll(s, Cmds(InitFinish()))
         == s.(look := s.look.(on := true, inverted := false, entireOn := false),
               scrolling := s.scrolling.(active := false))
  {
    var rest := [NORMALDISPLAY, DEACTIVATE_SCROLL, DISPLAYON];
    ReceiveThen(s, InitFinish(), DISPLAYALLON_RESUME, [], rest);
    FinishTailEffect(Execute(s, DISPLAYALLON_RESUME, []));
    FinishExecuted(s);
  }

  lemma FinishExecuted(s: Panel)
    ensures Execute(s, DISPLAYALLON_RESUME, []) == s.(look := s.look.(entireOn := false))
  {
  }

  lemma FinishTailEffect(s: Panel)
    requires s.pending == []
    ensures ReceiveAll(s, Cmds([NORMALDISPLAY, DEACTIVATE_SCROLL, DISPLAYON]))
         == s.(look := s.look.(on := true, inverted := false), scrolling := s.scrolling.(active := false))
  {
    var rest := [DEACTIVATE_SCROLL, DISPLAYON];
    ReceiveThen(s, [NORMALDISPLAY, DEACTIVATE_SCROLL, DISPLAYON], NORMALDISPLAY, [], rest);
    NormalExecuted(s);
    ShowEffect(Execute(s, NORMALDISPLAY, []));
  }

  lemma NormalExecuted(s: Panel)
    ensures Execute(s, NORMALDISPLAY, []) == s.(look := s.look.(inverted := false))
  {
  }

  lemma ShowEffect(s: Panel)
    requires s.pending == []
    ensures ReceiveAll(s, Cmds([DEACTIVATE_SCROLL, DISPLAYON]))
         == s.(look := s.look.(on := true), scrolling := s.scrolling.(active := false))
  {
    ReceiveTwo(s, [DEACTIVATE_SCROLL, DISPLAYON], DEACTIVATE_SCROLL, [], DISPLAYON, []);
    ShowExecuted(s);
  }

  lemma ShowExecuted(s: Panel)
    ensures Execute(Execute(s, DEACTIVATE_SCROLL, []), DISPLAYON, [])
         == s.(look := s.look.(on := true), scrolling := s.scrolling.(active := false))
  {
  }

  /** The controller after begin()'s sequence from `s`: on, not inverted and following its
      RAM, with the suggested clock ratio, the profile's multiplex ratio, no offset, start
      line 0, the charge pump, segment and COM remapping and COM pins of the profile and the
      supply mode's contrast and precharge, in horizontal addressing and with any scroll
      stopped; its RAM, address window and scroll set-up are as they were. */
  function Initialised(s: Panel, p: Personality, vcc: Byte): Panel
    requires WellFormed(p)
  {
    var ext := vcc == EXTERNALVCC;
    s.(look := Look(true, false, false, if ext then p.contrastExtVcc else p.contrast),
       drive := Drive(0x80, (p.h - 1) as Byte, 0x00, 0x00, if ext then 0x10 else 0x14, true, true,
                      p.compins, if ext then 0x22 else 0xF1, 0x40),
       scrolling := s.scrolling.(active := false),
       addr := s.addr.(mode := HORIZONTAL))
  }

  /** begin()'s sequence, received by a controller between commands, leaves it Initialised. */
  lemma InitEffect(s: Panel, p: Personality, vcc: Byte)
    requires s.pending == [] && WellFormed(p)
    ensures ReceiveAll(s, Cmds(InitCommands(p, vcc))) == Initialised(s, p, vcc)
  {
    var ext := vcc == EXTERNALVCC;
    InitGroupsEffect(s, (p.h - 1) as Byte, if ext then 0x10 else 0x14, p.compins,
                     if ext then p.contrastExtVcc else p.contrast, if ext then 0x22 else 0xF1);
  }

  /** The four groups of begin(), for any of their variable bytes. */
  lemma InitGroupsEffect(s: Panel, mux: Byte, pump: Byte, compins: Byte, contrast: Byte, precharge: Byte)
    requires s.pending == []
    ensures ReceiveAll(s, Cmds(InitTiming(mux) + InitLayout(pump, compins) + InitLevels(contrast, precharge) + InitFinish()))
         == s.(look := Look(true, false, false, contrast),
               drive := Drive(0x80, mux, 0x00, 0x00, pump, true, true, compins, precharge, 0x40),
               scrolling := s.scrolling.(active := false),
               addr := s.addr.(mode := HORIZONTAL))
  {
    var rest := InitLayout(pump, compins) + InitLevels(contrast, precharge) + InitFinish();
    ReceiveSplit(s, InitTiming(mux) + InitLayout(pump, compins) + InitLevels(contrast, precharge) + InitFinish(),
                 InitTiming(mux), rest);
    TimingEffect(s, mux);
    InitRestEffect(ReceiveAll(s, Cmds(InitTiming(mux))), pump, compins, contrast, precharge);
  }

  /** The layout, levels and finishing groups of begin(). */
  lemma InitRestEffect(s: Panel, pump: Byte, compins: Byte, contrast: Byte, precharge: Byte)
    requires s.pending == []
    ensures ReceiveAll(s, Cmds(InitLayout(pump, compins) + InitLevels(contrast, precharge) + InitFinish()))
         == s.(look := s.look.(on := true, inverted := false, entireOn := false, contrast := contrast),
               drive := s.drive.(displayOffset := 0x00, startLine := 0x00, chargePump := pump,
                                 segmentRemap := true, comScanDescending := true, comPins := compins,
                                 precharge := precharge, vcomDetect := 0x40),
               scrolling := s.scrolling.(active := false),
               addr := s.addr.(mode := HORIZONTAL))
  {
    var tail := InitLevels(contrast, precharge) + InitFinish();
    ReceiveSplit(s, InitLayout(pump, compins) + InitLevels(contrast, precharge) + InitFinish(),
                 InitLayout(pump, compins), tail);
    LayoutEffect(s, pump, compins);
    InitEndEffect(ReceiveAll(s, Cmds(InitLayout(pump, compins))), contrast, precharge);
  }

  /** The levels and finishing groups of begin(). */
  lemma InitEndEffect(s: Panel, contrast: Byte, precharge: Byte)
    requires s.pending == []
    ensures ReceiveAll(s, Cmds(InitLevels(contrast, precharge) + InitFinish()))
         == s.(look := s.look.(on := true, inverted := false, entireOn := false, contrast := contrast),
               drive := s.drive.(precharge := precharge, vcomDetect := 0x40),
               scrolling := s.scrolling.(active := false))
  {
    ReceiveSplit(s, InitLevels(contrast, precharge) + InitFinish(), InitLevels(contrast, precharge), InitFinish());
    LevelsEffect(s, contrast, precharge);
    FinishEffect(ReceiveAll(s, Cmds(InitLevels(contrast, precharge))));
  }

  lemma InvertEffect(s: Panel, i: bool)
    requires s.pending == []
    ensures ReceiveAll(s, Cmds(InvertCommands(i))) == s.(look := s.look.(inverted := i))
  {
    assert InvertCommands(i) == [if i then INVERTDISPLAY else NORMALDISPLAY] + [];
    ReceiveCommand(s, if i then INVERTDISPLAY else NORMALDISPLAY, []);
    ExecuteInvert(s, i);
  }

  lemma DimEffect(s: Panel, d: bool, vcc: Byte)
    requires s.pending == []
    ensures ReceiveAll(s, Cmds(DimCommands(d, vcc)))
         == s.(look := s.look.(contrast := if d then 0x00 else if vcc == EXTERNALVCC then 0x9F else 0xCF))
  {
    var c: Byte := if d then 0x00 else if vcc == EXTERNALVCC then 0x9F else 0xCF;
    assert DimCommands(d, vcc) == [SETCONTRAST] + [c];
    ReceiveCommand(s, SETCONTRAST, [c]);
    ExecuteContrast(s, c);
  }

  lemma HorizontalScrollEffect(s: Panel, op: Byte, start: Byte, stop: Byte)
    requires s.pending == [] && (op == RIGHT_HORIZONTAL_SCROLL || op == LEFT_HORIZONTAL_SCROLL)
    ensures ReceiveAll(s, Cmds(HorizontalScrollCommands(op, start, stop)))
         == s.(scrolling := s.scrolling.(active := true, setup := Scroll(op, start, 0x00, stop, 0x00)))
  {
    var args := [0x00, start, 0x00, stop, 0x00, 0xFF];
    assert Arity(op) == 6;
    ReceiveTwo(s, HorizontalScrollCommands(op, start, stop), op, args, ACTIVATE_SCROLL, []);
    StartHorizontalScroll(s, op, 0x00, start, 0x00, stop, 0x00, 0xFF);
  }

  /** The diagonal set-up and the start, after the scroll area. */
  lemma DiagonalScrollStarts(s: Panel, op: Byte, start: Byte, stop: Byte)
    requires s.pending == []
    requires op == VERTICAL_AND_RIGHT_HORIZONTAL_SCROLL || op == VERTICAL_AND_LEFT_HORIZONTAL_SCROLL
    ensures ReceiveAll(s, Cmds([op, 0x00, start, 0x00, stop, 0x01, ACTIVATE_SCROLL]))
         == Execute(Execute(s, op, [0x00, start, 0x00, stop, 0x01]), ACTIVATE_SCROLL, [])
  {
    assert Arity(op) == 5;
    ReceiveTwo(s, [op, 0x00, start, 0x00, stop, 0x01, ACTIVATE_SCROLL],
               op, [0x00, start, 0x00, stop, 0x01], ACTIVATE_SCROLL, []);
  }

  lemma DiagonalScrollEffect(s: Panel, op: Byte, rows: Byte, start: Byte, stop: Byte)
    requires s.pending == []
    requires op == VERTICAL_AND_RIGHT_HORIZONTAL_SCROLL || op == VERTICAL_AND_LEFT_HORIZONTAL_SCROLL
    ensures ReceiveAll(s, Cmds(DiagonalScrollCommands(op, rows, start, stop)))
         == s.(scrolling := Scrolling(true, Scroll(op, start, 0x00, stop, 0x01), (0x00, rows)))
  {
    var rest := [op, 0x00, start, 0x00, stop, 0x01, ACTIVATE_SCROLL];
    ReceiveThen(s, DiagonalScrollCommands(op, rows, start, stop), SET_VERTICAL_SCROLL_AREA, [0x00, rows], rest);
    DiagonalScrollStarts(Execute(s, SET_VERTICAL_SCROLL_AREA, [0x00, rows]), op, start, stop);
    StartDiagonalScroll(s, 0x00, rows, op, 0x00, start, 0x00, stop, 0x01);
  }

  lemma StopScrollEffect(s: Panel)
    requires s.pending == []
    ensures ReceiveAll(s, Cmds(StopScrollCommands())) == s.(scrolling := s.scrolling.(active := false))
  {
    assert StopScrollCommands() == [DEACTIVATE_SCROLL] + [];
    ReceiveCommand(s, DEACTIVATE_SCROLL, []);
    ExecuteScrollSwitch(s, false);
  }

  /** display()'s commands set the window to the whole panel and put the pointer at its
      first cell. */
  lemma DisplayWindowEffect(s: Panel, W: U8, H: U8)
    requires s.pending == [] && 0 < W && 8 <= H
    ensures ReceiveAll(s, Cmds(DisplayCommands(W, H)))
         == s.(addr := Addressing(s.addr.mode, 0, W as int - 1, 0, H as int / 8 - 1, 0, 0))
  {
    var cols, pages := [0x00, (W - 1) as Byte], [0x00, (H / 8 - 1) as Byte];
    ByteValue(W as int - 1);
    ByteValue(H as int / 8 - 1);
    ReceiveTwo(s, DisplayCommands(W, H), COLUMNADDR, cols, PAGEADDR, pages);
    ExecuteWindow(s, 0x00, (W - 1) as Byte, 0x00, (H / 8 - 1) as Byte);
  }

  /** The pixel (x, y) of the controller's RAM: bit y % 8 of page y / 8, column x. */
  predicate RamLit(ram: map<(int, int), Byte>, x: int, y: int)
    requires 0 <= y && (y / 8, x) in ram
  {
    ram[(y / 8, x)] & Bit(y % 8) != 0
  }

  /** The RAM holds every pixel of the panel, lit exactly where the buffer's pixel is. */
  ghost predicate Shows(ram: map<(int, int), Byte>, buf: seq<Byte>, W: int, H: int)
    requires Sized(buf, W, H)
  {
    forall x, y | 0 <= x < W && 0 <= y < H ::
      (y / 8, x) in ram && (RamLit(ram, x, y) <==> Lit(buf, W, H, x, y))
  }

  /** A RAM that holds the buffer page by page shows exactly the buffer's pixels. */
  lemma RamShowsBuffer(ram: map<(int, int), Byte>, buf: seq<Byte>, W: int, H: int)
    requires Sized(buf, W, H) && Filled(ram, buf, W, |buf|)
    ensures Shows(ram, buf, W, H)
  {
    forall x, y | 0 <= x < W && 0 <= y < H
      ensures (y / 8, x) in ram && (RamLit(ram, x, y) <==> Lit(buf, W, H, x, y))
    {
      PixelIndexInside(W, H, x, y);
      MulLe(0, y / 8, W);
      FilledAt(ram, buf, W, |buf|, y / 8, x);
    }
  }

  /** display(): after its window commands and the whole buffer as data, a controller in
      horizontal addressing between commands shows the buffer pixel for pixel, and nothing
      but its RAM and address pointer has changed. */
  lemma DisplayShowsBuffer(s: Panel, buf: seq<Byte>, W: U8, H: U8)
    requires s.pending == [] && s.addr.mode == HORIZONTAL && Sized(buf, W, H)
    ensures var t := ReceiveAll(s, Cmds(DisplayCommands(W, H)) + Datas(buf));
      Shows(t.ram, buf, W, H) && t.pending == [] && t.look == s.look && t.drive == s.drive
      && t.scrolling == s.scrolling
  {
    var s1 := ReceiveAll(s, Cmds(DisplayCommands(W, H)));
    ReceiveAllConcat(s, Cmds(DisplayCommands(W, H)), Datas(buf));
    DisplayWindowEffect(s, W, H);
    assert buf[..|buf|] == buf;
    HorizontalFill(s1, buf, W, H / 8, |buf|);
    HorizontalPointer(s1, buf, W, H / 8, |buf|);
    RamShowsBuffer(ReceiveAll(s1, Datas(buf)).ram, buf, W, H);
  }

  /** A cleared buffer has no pixel lit. */
  lemma ClearedIsDark(buf: seq<Byte>, W: int, H: int)
    requires Sized(buf, W, H) && forall i | 0 <= i < |buf| :: buf[i] == 0
    ensures forall x, y | 0 <= x < W && 0 <= y < H :: !Lit(buf, W, H, x, y)
  {
    forall x, y | 0 <= x < W && 0 <= y < H
      ensures !Lit(buf, W, H, x, y)
    {
      PixelIndexInside(W, H, x, y);
    }
  }

  /** begin()'s reset pulse on the reset line: high, low, high. */
  function ResetEvents(pulse: bool): seq<Event>
  {
    if pulse then [Level(Rst, true), Level(Rst, false), Level(Rst, true)] else []
  }

  /** One more command byte of a list, after the trace so far. */
  lemma TraceStep(t0: seq<Event>, bus: Bus, cs: seq<Byte>, k: nat)
    requires k < |cs|
    ensures t0 + CommandsEvents(bus, cs[..k + 1]) == t0 + CommandsEvents(bus, cs[..k]) + CommandEvents(bus, cs[k])
  {
    assert cs[..k + 1] == cs[..k] + [cs[k]];
    CommandsEventsSnoc(bus, cs[..k], cs[k]);
  }

  /** One more command byte of a list, as the controller receives it. */
  lemma FramesStep(s: Panel, cs: seq<Byte>, k: nat)
    requires k < |cs|
    ensures ReceiveAll(s, Cmds(cs[..k + 1])) == CommandByte(ReceiveAll(s, Cmds(cs[..k])), cs[k])
  {
    assert cs[..k + 1] == cs[..k] + [cs[k]];
    CmdsSnoc(cs[..k], cs[k]);
    ReceiveAllSnoc(s, Cmds(cs[..k]), Cmd(cs[k]));
  }

  // ---------------------------------------------------------------------------
  // The display

  class Ssd1306 {
    /** The model's size and tuning bytes. */
    const profile: Personality
    /** The model's static framebuffer, bufsize() bytes. */
    const buffer: array<Byte>
    /** The transport. */
    const conn: Connection
    /** The graphics library's rotation, 0 .. 3. */
    var rotation: Rotation
    /** The supply mode given to begin(). */
    var vccState: Byte
    /** The controller at the far end of the connection, as the frames sent so far have
        left it (a specification of what the commands do; the driver does not keep it). */
    ghost var panel: Panel

    /** The buffer has the profile's size, bufsize() bytes. */
    ghost predicate Valid()
    {
      WellFormed(profile) && buffer.Length == BufSize(profile) == W() * (H() / 8)
    }

    /** The panel width and height, WIDTH and HEIGHT in the driver. */
    function W(): int { profile.w }
    function H(): int { profile.h }

    /** The constructor keeps the profile (with its buffer) and the connection; the graphics
        library starts at rotation 0. The supply mode is only set by begin(). `initial` is the
        controller as the driver finds it. */
    constructor (p: Personality, buf: array<Byte>, c: Connection, ghost initial: Panel)
      requires WellFormed(p) && buf.Length == BufSize(p)
      ensures Valid() && profile == p && buffer == buf && conn == c && rotation == 0
      ensures panel == initial
    {
      profile := p;
      buffer := buf;
      conn := c;
      rotation := 0;
      panel := initial;
    }

    /** The graphics library's setRotation, kept to its 0 .. 3 range. */
    method SetRotation(r: Rotation)
      modifies `rotation
      ensures rotation == r
    {
      rotation := r;
    }

    /** ssd1306_command: one command byte through the connection, taken by the controller. */
    method Command(c: Byte)
      modifies conn, `panel
      ensures conn.bus == old(conn.bus) && conn.trace == old(conn.trace) + CommandEvents(conn.bus, c)
      ensures panel == CommandByte(old(panel), c)
    {
      conn.Command(c);
      panel := CommandByte(panel, c);
    }

    /** The bytes of a command list, one ssd1306_command each, in order. */
    method SendCommands(cs: seq<Byte>)
      modifies conn, `panel
      ensures conn.bus == old(conn.bus) && conn.trace == old(conn.trace) + CommandsEvents(conn.bus, cs)
      ensures panel == ReceiveAll(old(panel), Cmds(cs))
    {
      for k := 0 to |cs|
        invariant conn.bus == old(conn.bus) && conn.trace == old(conn.trace) + CommandsEvents(conn.bus, cs[..k])
        invariant panel == ReceiveAll(old(panel), Cmds(cs[..k]))
      {
        Command(cs[k]);
        TraceStep(old(conn.trace), conn.bus, cs, k);
        FramesStep(old(panel), cs, k);
      }
      assert cs[..|cs|] == cs;
    }

    /** begin(): record the supply mode, start the transport, pulse the reset line when asked
        to and one is connected (the controller is then in its power-on state
        `powerOn`), then send the 26 bytes of InitCommands one ssd1306_command at a time.
        The delays of the pulse are not modelled. The arguments default as in the header. */
    method Begin(ghost powerOn: Panel, vcc: Byte := DEFAULT_VCCSTATE, i2caddr: Byte := DEFAULT_I2C_ADDRESS,
                 reset: bool := DEFAULT_RESET)
      requires Valid()
      modifies `vccState, `panel, conn
      ensures vccState == vcc
      ensures conn.bus == (if old(conn.bus).I2c? then I2c(i2caddr) else old(conn.bus))
      ensures var pulse := reset && Connected(conn.rst);
        conn.trace == old(conn.trace) + StartEvents(conn.bus) + ResetEvents(pulse)
                      + CommandsEvents(conn.bus, InitCommands(profile, vcc))
      ensures var start := if reset && Connected(conn.rst) then powerOn else old(panel);
        panel == ReceiveAll(start, Cmds(InitCommands(profile, vcc)))
    {
      vccState := vcc;
      conn.Begin(i2caddr);
      ghost var started := conn.trace;
      var pulse := reset && Connected(conn.rst);
      if pulse {
        conn.SetReset(true);
        conn.SetReset(false);
        conn.SetReset(true);
        panel := powerOn;
      }
      assert conn.trace == started + ResetEvents(pulse);
      var cs := InitCommands(profile, vcc);
      SendCommands(cs);
    }

    /** The usual begin() call with every argument defaulted: the switched-capacitor supply,
        I2C address 0x3C, and a reset pulse whenever a reset pin is connected. */
    method BeginDefault(ghost powerOn: Panel)
      requires Valid()
      modifies `vccState, `panel, conn
      ensures vccState == SWITCHCAPVCC
      ensures conn.bus == (if old(conn.bus).I2c? then I2c(0x3C) else old(conn.bus))
      ensures conn.trace == old(conn.trace) + StartEvents(conn.bus) + ResetEvents(Connected(conn.rst))
                            + CommandsEvents(conn.bus, InitCommands(profile, SWITCHCAPVCC))
      ensures var start := if Connected(conn.rst) then powerOn else old(panel);
        panel == ReceiveAll(start, Cmds(InitCommands(profile, SWITCHCAPVCC)))
    {
      Begin(powerOn);
    }

    /** invertDisplay(i): INVERTDISPLAY or NORMALDISPLAY. */
    method InvertDisplay(i: bool)
      modifies conn, `panel
      ensures conn.bus == old(conn.bus)
      ensures conn.trace == old(conn.trace) + CommandsEvents(conn.bus, InvertCommands(i))
      ensures panel == ReceiveAll(old(panel), Cmds(InvertCommands(i)))
    {
      SendCommands(InvertCommands(i));
    }

    /** startscrollright(start, stop). */
    method StartScrollRight(start: Byte, stop: Byte)
      modifies conn, `panel
      ensures conn.bus == old(conn.bus)
      ensures conn.trace == old(conn.trace)
                            + CommandsEvents(conn.bus, HorizontalScrollCommands(RIGHT_HORIZONTAL_SCROLL, start, stop))
      ensures panel == ReceiveAll(old(panel), Cmds(HorizontalScrollCommands(RIGHT_HORIZONTAL_SCROLL, start, stop)))
    {
      SendCommands(HorizontalScrollCommands(RIGHT_HORIZONTAL_SCROLL, start, stop));
    }

    /** startscrollleft(start, stop). */
    method StartScrollLeft(start: Byte, stop: Byte)
      modifies conn, `panel
      ensures conn.bus == old(conn.bus)
      ensures conn.trace == old(conn.trace)
                            + CommandsEvents(conn.bus, HorizontalScrollCommands(LEFT_HORIZONTAL_SCROLL, start, stop))
      ensures panel == ReceiveAll(old(panel), Cmds(HorizontalScrollCommands(LEFT_HORIZONTAL_SCROLL, start, stop)))
    {
      SendCommands(HorizontalScrollCommands(LEFT_HORIZONTAL_SCROLL, start, stop));
    }

    /** startscrolldiagright(start, stop): the scroll area is rows 0 .. HEIGHT. */
    method StartScrollDiagRight(start: Byte, stop: Byte)
      modifies conn, `panel
      ensures conn.bus == old(conn.bus)
      ensures conn.trace == old(conn.trace) + CommandsEvents(conn.bus,
                              DiagonalScrollCommands(VERTICAL_AND_RIGHT_HORIZONTAL_SCROLL, profile.h as Byte, start, stop))
      ensures panel == ReceiveAll(old(panel),
                         Cmds(DiagonalScrollCommands(VERTICAL_AND_RIGHT_HORIZONTAL_SCROLL, profile.h as Byte, start, stop)))
    {
      SendCommands(DiagonalScrollCommands(VERTICAL_AND_RIGHT_HORIZONTAL_SCROLL, profile.h as Byte, start, stop));
    }

    /** startscrolldiagleft(start, stop): the scroll area is rows 0 .. HEIGHT. */
    method StartScrollDiagLeft(start: Byte, stop: Byte)
      modifies conn, `panel
      ensures conn.bus == old(conn.bus)
      ensures conn.trace == old(conn.trace) + CommandsEvents(conn.bus,
                              DiagonalScrollCommands(VERTICAL_AND_LEFT_HORIZONTAL_SCROLL, profile.h as Byte, start, stop))
      ensures panel == ReceiveAll(old(panel),
                         Cmds(DiagonalScrollCommands(VERTICAL_AND_LEFT_HORIZONTAL_SCROLL, profile.h as Byte, start, stop)))
    {
      SendCommands(DiagonalScrollCommands(VERTICAL_AND_LEFT_HORIZONTAL_SCROLL, profile.h as Byte, start, stop));
    }

    /** stopscroll(). */
    method StopScroll()
      modifies conn, `panel
      ensures conn.bus == old(conn.bus)
      ensures conn.trace == old(conn.trace) + CommandsEvents(conn.bus, StopScrollCommands())
      ensures panel == ReceiveAll(old(panel), Cmds(StopScrollCommands()))
    {
      SendCommands(StopScrollCommands());
    }

    /** dim(d): contrast 0 when dimmed, otherwise 0x9F (external supply) or 0xCF. */
    method Dim(d: bool)
      modifies conn, `panel
      ensures conn.bus == old(conn.bus)
      ensures conn.trace == old(conn.trace) + CommandsEvents(conn.bus, DimCommands(d, vccState))
      ensures panel == ReceiveAll(old(panel), Cmds(DimCommands(d, vccState)))
    {
      var contrast: Byte;
      if d {
        contrast := 0;
      } else {
        if vccState == EXTERNALVCC {
          contrast := 0x9F;
        } else {
          contrast := 0xCF;
        }
      }
      SendCommands([SETCONTRAST, contrast]);
    }

    /** display(): the window commands, then the whole buffer through the connection's
        writeBuffer (on I2C the buffer size must be a multiple of 16, as every profile's is).
        A controller that was between commands and in horizontal addressing (as begin()
        leaves it) then shows the buffer pixel for pixel. */
    method Display()
      requires Valid() && (conn.bus.I2c? ==> BufSize(profile) % I2C_CHUNK == 0)
      modifies conn, `panel
      ensures conn.bus == old(conn.bus)
      ensures conn.trace == old(conn.trace) + CommandsEvents(conn.bus, DisplayCommands(profile.w, profile.h))
                            + DataEvents(conn.bus, buffer[..])
      ensures panel == ReceiveAll(old(panel), Cmds(DisplayCommands(profile.w, profile.h)) + Datas(buffer[..]))
    {
      ghost var p0 := panel;
      SendCommands(DisplayCommands(profile.w, profile.h));
      conn.WriteBuffer(buffer, BufSize(profile));
      assert buffer[..BufSize(profile)] == buffer[..];
      panel := ReceiveAll(panel, Datas(buffer[..]));
      ReceiveAllConcat(p0, Cmds(DisplayCommands(profile.w, profile.h)), Datas(buffer[..]));
    }

    /** clearDisplay(): every byte of the buffer is 0, so no pixel is lit. */
    method ClearDisplay()
      requires Valid()
      modifies buffer
      ensures buffer[..] == seq(BufSize(profile), _ => 0)
      ensures forall x, y | 0 <= x < W() && 0 <= y < H() :: !Lit(buffer[..], W(), H(), x, y)
    {
      forall i | 0 <= i < buffer.Length {
        buffer[i] := 0;
      }
      ClearedIsDark(buffer[..], W(), H());
    }

    /** The colour switch on one byte: set, clear or flip the masked bits. */
    method PaintByte(i: int, mask: Byte, color: U16)
      requires 0 <= i < buffer.Length
      modifies buffer
      ensures buffer[..] == old(buffer[..])[i := Paint(old(buffer[i]), mask, color)]
    {
      if color == WHITE {
        buffer[i] := buffer[i] | mask;
      } else if color == BLACK {
        buffer[i] := buffer[i] & !mask;
      } else if color == INVERSE {
        buffer[i] := buffer[i] ^ mask;
      }
    }

    /** drawPixel: outside the logical panel nothing happens; otherwise the point is mapped
        through the rotation and its one bit is set, cleared or flipped. */
    method DrawPixel(x: Int16, y: Int16, color: U16)
      requires Valid()
      modifies buffer
      ensures buffer[..] == DrawPixelSpec(old(buffer[..]), W(), H(), rotation, x, y, color)
    {
      var w, h := LogicalWidth(W(), H(), rotation), LogicalHeight(W(), H(), rotation);
      if x < 0 || x >= w || y < 0 || y >= h {
        return;
      }
      var px, py := x as int, y as int;
      if rotation == 1 {
        px, py := py, px;
        px := W() - px - 1;
      } else if rotation == 2 {
        px := W() - px - 1;
        py := H() - py - 1;
      } else if rotation == 3 {
        px, py := py, px;
        py := H() - py - 1;
      }
      assert (px, py) == Rotate(W(), H(), rotation, x, y);
      RotateRoundTrip(W(), H(), rotation, x, y);
      PixelIndexInside(W(), H(), px, py);
      PaintByte(ByteIndex(W(), px, py), Bit(py % 8), color);
    }

    /** The clipping both internal routines start with: a negative start is moved to 0 and
        the length shortened by as much (the sum stored back into an int16_t), then a run
        past the far edge is cut at the edge. */
    static method Clip(start: Int16, len: Int16, limit: int) returns (s: Int16, n: Int16)
      requires 0 < limit < 0x100
      ensures (s as int, n as int) == ClipRun(start, len, limit)
    {
      s, n := start, len;
      if s < 0 {
        n := Wrap16(n + s);
        s := 0;
      }
      if s + n > limit {
        n := limit - s;
      }
    }

    /** drawFastHLine: map the run's start through the rotation (each assignment back into
        an int16_t wraps); under rotations 1 and 3 a logical row is a physical column. */
    method DrawFastHLine(x: Int16, y: Int16, w: Int16, color: U16)
      requires Valid()
      modifies buffer
      ensures buffer[..] == FastHLineSpec(old(buffer[..]), W(), H(), rotation, x, y, w, color)
    {
      ghost var before := buffer[..];
      ghost var after := FastHLineSpec(before, W(), H(), rotation, x, y, w, color);
      var swap := false;
      var px, py := x, y;
      if rotation == 1 {
        swap := true;
        px, py := py, px;
        px := Wrap16(W() - px - 1);
        assert after == VLineSpec(before, W(), H(), px, py, w, color);
      } else if rotation == 2 {
        px := Wrap16(W() - px - 1);
        py := Wrap16(H() - py - 1);
        px := Wrap16(px - (w - 1));
        assert after == HLineSpec(before, W(), H(), px, py, w, color);
      } else if rotation == 3 {
        swap := true;
        px, py := py, px;
        py := Wrap16(H() - py - 1);
        py := Wrap16(py - (w - 1));
        assert after == VLineSpec(before, W(), H(), px, py, w, color);
      }
      if swap {
        DrawFastVLineInternal(px, py, w, color);
      } else {
        DrawFastHLineInternal(px, py, w, color);
      }
    }

    /** drawFastVLine: the same mapping for a logical column, which under rotations 1 and 3
        is a physical row. */
    method DrawFastVLine(x: Int16, y: Int16, h: Int16, color: U16)
      requires Valid()
      modifies buffer
      ensures buffer[..] == FastVLineSpec(old(buffer[..]), W(), H(), rotation, x, y, h, color)
    {
      ghost var before := buffer[..];
      ghost var after := FastVLineSpec(before, W(), H(), rotation, x, y, h, color);
      var swap := false;
      var px, py := x, y;
      if rotation == 1 {
        swap := true;
        px, py := py, px;
        px := Wrap16(W() - px - 1);
        px := Wrap16(px - (h - 1));
        assert after == HLineSpec(before, W(), H(), px, py, h, color);
      } else if rotation == 2 {
        px := Wrap16(W() - px - 1);
        py := Wrap16(H() - py - 1);
        py := Wrap16(py - (h - 1));
        assert after == VLineSpec(before, W(), H(), px, py, h, color);
      } else if rotation == 3 {
        swap := true;
        px, py := py, px;
        py := Wrap16(H() - py - 1);
        assert after == HLineSpec(before, W(), H(), px, py, h, color);
      }
      if swap {
        DrawFastHLineInternal(px, py, h, color);
      } else {
        DrawFastVLineInternal(px, py, h, color);
      }
    }

    /** drawFastHLineInternal: clip to the panel, then set, clear or flip row y's bit in
        each byte of the run, one pointer step at a time. */
    method DrawFastHLineInternal(x: Int16, y: Int16, w: Int16, color: U16)
      requires Valid()
      modifies buffer
      ensures buffer[..] == HLineSpec(old(buffer[..]), W(), H(), x, y, w, color)
    {
      if y < 0 || y >= H() {
        return;
      }
      var xx, ww := Clip(x, w, W());
      if ww <= 0 {
        return;
      }
      var row := (y / 8) * W();
      HLineSpecClipped(old(buffer[..]), W(), H(), x, y, w, color, xx as int, ww as int, row);
      RowFits(W(), H(), y, xx as int, ww as int, row);
      PaintRow(row + xx, ww, Bit(y % 8), color);
    }

    /** The colour switch of drawFastHLineInternal: one pointer loop per colour. */
    method PaintRow(start: int, n: Int16, bit: Byte, color: U16)
      requires 0 <= start && 0 < n && start + n <= buffer.Length
      modifies buffer
      ensures buffer[..] == PaintedRange(old(buffer[..]), start, start + n, bit, color)
    {
      if color == WHITE {
        OrRun(start, n, bit);
      } else if color == BLACK {
        AndRun(start, n, !bit);
      } else if color == INVERSE {
        XorRun(start, n, bit);
      } else {
        PaintedRangeUndefinedColour(buffer[..], start, start + n, bit, color);
      }
    }

    /** The WHITE loop: or the row's bit into n bytes from `start`. */
    method OrRun(start: int, n: Int16, mask: Byte)
      requires 0 <= start && 0 < n && start + n <= buffer.Length
      modifies buffer
      ensures buffer[..] == PaintedRange(old(buffer[..]), start, start + n, mask, WHITE)
    {
      var p, ww := start, n;
      while ww != 0
        invariant 0 <= ww <= n && p == start + (n - ww)
        invariant buffer[..] == PaintedRange(old(buffer[..]), start, p, mask, WHITE)
      {
        PaintedRangeStep(old(buffer[..]), start, p, mask, WHITE);
        buffer[p] := buffer[p] | mask;
        p := p + 1;
        ww := ww - 1;
      }
    }

    /** The BLACK loop: the mask is complemented once beforehand, then and-ed into n bytes. */
    method AndRun(start: int, n: Int16, mask: Byte)
      requires 0 <= start && 0 < n && start + n <= buffer.Length
      modifies buffer
      ensures buffer[..] == PaintedRange(old(buffer[..]), start, start + n, !mask, BLACK)
    {
      var p, ww := start, n;
      while ww != 0
        invariant 0 <= ww <= n && p == start + (n - ww)
        invariant buffer[..] == PaintedRange(old(buffer[..]), start, p, !mask, BLACK)
      {
        PaintedRangeStep(old(buffer[..]), start, p, !mask, BLACK);
        buffer[p] := buffer[p] & mask;
        p := p + 1;
        ww := ww - 1;
      }
    }

    /** The INVERSE loop: xor the row's bit into n bytes. */
    method XorRun(start: int, n: Int16, mask: Byte)
      requires 0 <= start && 0 < n && start + n <= buffer.Length
      modifies buffer
      ensures buffer[..] == PaintedRange(old(buffer[..]), start, start + n, mask, INVERSE)
    {
      var p, ww := start, n;
      while ww != 0
        invariant 0 <= ww <= n && p == start + (n - ww)
        invariant buffer[..] == PaintedRange(old(buffer[..]), start, p, mask, INVERSE)
      {
        PaintedRangeStep(old(buffer[..]), start, p, mask, INVERSE);
        buffer[p] := buffer[p] ^ mask;
        p := p + 1;
        ww := ww - 1;
      }
    }

    /** drawFastVLineInternal: clip to the panel, then write the clipped run of column x. */
    method DrawFastVLineInternal(x: Int16, y: Int16, h: Int16, color: U16)
      requires Valid()
      modifies buffer
      ensures buffer[..] == VLineSpec(old(buffer[..]), W(), H(), x, y, h, color)
    {
      if x < 0 || x >= W() {
        return;
      }
      var yy, hh := Clip(y, h, H());
      if hh <= 0 {
        return;
      }
      // y_reg and h_reg are uint8_t; after clipping both fit.
      PaintColumn(x, yy, hh, color);
    }

    /** The body of drawFastVLineInternal after clipping: a masked head byte, whole middle
        bytes (complemented for INVERSE, otherwise 0xFF for WHITE and 0x00 for any other
        colour) and a masked tail byte, stepping the pointer a band at a time. */
    method PaintColumn(x: int, yStart: int, len: int, color: U16)
      requires Valid() && 0 <= x < W() && 0 <= yStart && 0 < len && yStart + len <= H()
      modifies buffer
      ensures buffer[..] == VLineBytes(old(buffer[..]), W(), x, yStart, yStart + len, color)
    {
      ghost var y0, y1 := yStart, yStart + len;
      ghost var before := buffer[..];
      var yReg, hReg := yStart, len;
      var p := (yReg / 8) * W() + x;
      ghost var band := yReg / 8;
      ColumnStart(before, W(), x, y0, y1, color);
      var mod := yReg % 8;
      if mod != 0 {
        mod := 8 - mod;
        HeadBand(y0, y1, band);
        PaintHead(p, mod, hReg, color, x, y0, band, before);
        if hReg < mod {
          ColumnDone(before, W(), x, y0, y1, color, band + 1);
          return;
        }
        hReg := hReg - mod;
        NextBand(W(), x, band);
        p := p + W();
        band := band + 1;
      } else {
        HeadBand(y0, y1, band);
      }
      if hReg >= 8 {
        if color == INVERSE {
          p, hReg, band := InvertBands(p, hReg, x, y0, y1, band, before);
        } else {
          var val: Byte := if color == WHITE then 255 else 0;
          p, hReg, band := FillBands(p, hReg, val, x, y0, y1, color, band, before);
        }
      }
      if hReg != 0 {
        PaintTail(p, hReg, color, x, y0, y1, band, before);
        band := band + 1;
      }
      ColumnDone(before, W(), x, y0, y1, color, band);
    }

    /** The head byte: premask[mod] selects the rows of the first band from y0 down, narrowed
        by 0xFF >> (mod - h) when the run ends inside that band. */
    method PaintHead(p: int, mod: int, h: int, color: U16, ghost x: int, ghost y0: int,
                     ghost band: int, ghost before: seq<Byte>)
      requires Valid() && 0 <= x < W() && 0 <= y0 && y0 + h <= H() && 0 < h
      requires band == y0 / 8 && y0 % 8 != 0 && mod == 8 - y0 % 8 && 0 < mod < 8 && p == band * W() + x
      requires |before| == buffer.Length
      requires buffer[..] == ColumnUpTo(before, W(), x, y0, y0 + h, color, band)
      modifies buffer
      ensures buffer[..] == ColumnUpTo(before, W(), x, y0, y0 + h, color, band + 1)
    {
      var mask := PREMASK[mod];
      if h < mod {
        mask := mask & ((0xFF as Byte) >> (mod - h));
      }
      HeadMask(y0, h, mod, mask);
      TailBand(H(), y0 + h, band);
      PaintBand(p, mask, color, x, y0, y0 + h, band, before);
    }

    /** The tail byte: postmask[h % 8] selects the h rows left at the top of the last band. */
    method PaintTail(p: int, h: int, color: U16, ghost x: int, ghost y0: int, ghost y1: int,
                     ghost band: int, ghost before: seq<Byte>)
      requires Valid() && 0 <= x < W() && 0 <= band && y0 <= 8 * band && y1 <= H()
      requires 0 < h == y1 - 8 * band < 8 && p == band * W() + x
      requires |before| == buffer.Length
      requires buffer[..] == ColumnUpTo(before, W(), x, y0, y1, color, band)
      modifies buffer
      ensures buffer[..] == ColumnUpTo(before, W(), x, y0, y1, color, band + 1)
    {
      var mod := h % 8;
      var mask := POSTMASK[mod];
      TailMask(y0, y1, band);
      TailBand(H(), y1, band);
      PaintBand(p, mask, color, x, y0, y1, band, before);
    }

    /** A head or tail byte: paint the byte of column x in `band` through the band's
        partial mask. */
    method PaintBand(p: int, mask: Byte, color: U16, ghost x: int, ghost y0: int, ghost y1: int,
                     ghost band: int, ghost before: seq<Byte>)
      requires Valid() && 0 <= x < W() && 0 <= band < H() / 8 && p == band * W() + x
      requires |before| == buffer.Length && mask == BandMask(y0, y1, band) != 0xFF
      requires buffer[..] == ColumnUpTo(before, W(), x, y0, y1, color, band)
      modifies buffer
      ensures buffer[..] == ColumnUpTo(before, W(), x, y0, y1, color, band + 1)
    {
      BandFits(W(), H(), band, x);
      ColumnStep(before, W(), x, y0, y1, color, band);
      PaintByte(p, mask, color);
    }

    /** The INVERSE middle loop: complement the whole byte of column x in each band the
        run covers, a band (W bytes) at a time, while at least 8 rows are left. */
    method InvertBands(p0: int, h0: int, ghost x: int, ghost y0: int, ghost y1: int, ghost band0: int,
                       ghost before: seq<Byte>)
      returns (p: int, h: int, ghost band: int)
      requires Valid() && 0 <= x < W() && |before| == buffer.Length
      requires 0 <= band0 && y0 <= 8 * band0 && 8 <= h0 == y1 - 8 * band0 && y1 <= H() && p0 == band0 * W() + x
      requires buffer[..] == ColumnUpTo(before, W(), x, y0, y1, INVERSE, band0)
      modifies buffer
      ensures 0 <= band && y0 <= 8 * band && 0 <= h == y1 - 8 * band < 8 && p == band * W() + x
      ensures buffer[..] == ColumnUpTo(before, W(), x, y0, y1, INVERSE, band)
    {
      p, h, band := p0, h0, band0;
      while h >= 8
        invariant 0 <= band && y0 <= 8 * band && 0 <= h == y1 - 8 * band && p == band * W() + x
        invariant buffer[..] == ColumnUpTo(before, W(), x, y0, y1, INVERSE, band)
      {
        MiddleMask(y0, y1, band);
        BandFits(W(), H(), band, x);
        ColumnStep(before, W(), x, y0, y1, INVERSE, band);
        buffer[p] := !buffer[p];
        p := p + W();
        h := h - 8;
        band := band + 1;
      }
    }

    /** The middle loop for every other colour: store `val` (0xFF for WHITE, 0x00
        otherwise) into the byte of column x in each band the run covers. */
    method FillBands(p0: int, h0: int, val: Byte, ghost x: int, ghost y0: int, ghost y1: int,
                     ghost color: int, ghost band0: int, ghost before: seq<Byte>)
      returns (p: int, h: int, ghost band: int)
      requires Valid() && 0 <= x < W() && |before| == buffer.Length
      requires color != INVERSE && val == (if color == WHITE then 0xFF else 0x00)
      requires 0 <= band0 && y0 <= 8 * band0 && 8 <= h0 == y1 - 8 * band0 && y1 <= H() && p0 == band0 * W() + x
      requires buffer[..] == ColumnUpTo(before, W(), x, y0, y1, color, band0)
      modifies buffer
      ensures 0 <= band && y0 <= 8 * band && 0 <= h == y1 - 8 * band < 8 && p == band * W() + x
      ensures buffer[..] == ColumnUpTo(before, W(), x, y0, y1, color, band)
    {
      p, h, band := p0, h0, band0;
      while h >= 8
        invariant 0 <= band && y0 <= 8 * band && 0 <= h == y1 - 8 * band && p == band * W() + x
        invariant buffer[..] == ColumnUpTo(before, W(), x, y0, y1, color, band)
      {
        MiddleMask(y0, y1, band);
        BandFits(W(), H(), band, x);
        ColumnStep(before, W(), x, y0, y1, color, band);
        buffer[p] := val;
        p := p + W();
        h := h - 8;
        band := band + 1;
      }
    }
  }
}
