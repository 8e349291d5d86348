# SSD1306 OLED driver — a Dafny model

This project models the Adafruit SSD1306 driver for the monochrome SSD1306 OLED
controller, and the two scripts that turn a bitmap into the driver's splash-screen
arrays.

The driver keeps a framebuffer of `WIDTH * HEIGHT / 8` bytes. Each byte is a vertical
strip of eight pixels: bit `y & 7` of byte `x + (y / 8) * WIDTH`. The drawing calls
(`drawPixel`, `drawFastHLine`, `drawFastVLine`, `clearDisplay`) change that buffer in
place. The controller calls (`begin`, `invertDisplay`, the four `startscroll*`,
`stopscroll`, `dim`, `display`) send command bytes, and `display` also sends the buffer.
Bytes go over one of two links:

- SPI, software bit-banged or hardware, with CS/DC framing;
- I2C, with control bytes 0x00 for a command and 0x40 for data, and the data sent in
  16-byte transmissions.

The model has these modules:

- `Profiles` (profiles.dfy): byte and int16 types, colours, opcodes, and the three panel
  profiles (96x16, 128x32, 128x64) with their buffer sizes.
- `FrameBuffer` (framebuffer.dfy): the pixel-to-byte layout, the rotation, and the
  colour update of a masked byte. It also holds a reference specification of every
  drawing call. That specification is the `Painted` predicate: "exactly these logical
  pixels take this colour, every other pixel is unchanged".
- `Transport` (transport.dfy): the `Connection` class, which records the pin and bus
  events it emits in a `trace`. It is paired with receiver models of an SPI shift
  register and an I2C slave, which decode a trace back into command and data frames.
- `Controller` (controller.dfy): the SSD1306 side. It gathers command bytes into
  commands and executes them on the registers the driver sets. It stores data bytes in
  display RAM at the horizontal-addressing pointer.
- `Display` (display.dfy): the `Ssd1306` class (`Adafruit_SSD1306_Core`). It holds the
  buffer `array`, the connection, the rotation, the supply mode and the controller
  state. Each method is proved against the `FrameBuffer` specification or against the
  command list it sends and that list's effect on the controller.
- `Literals`, `Packing`, `Splash` (literals.dfy, packing.dfy, splash.dfy): the
  `splash/make_splash.py` generator. It thresholds the image, packs it into vertical
  bytes, and writes the C array and the binary-literal comment. Each is proved to read
  back to the image.
- `SplashExtras` (extras_splash.dfy): the older `extras/make_splash.py` generator. Its
  matrix reader fails on an image smaller than 128x64, its bit-by-bit packer fails when
  a set pixel lies in a partial last band, and its output layout differs.

Inputs outside the driver are parameters:

- the rotation and the `width()`/`height()` of Adafruit_GFX;
- the name format;
- the resized grey image (Pillow);
- the controller's state at power-on.

The header declares `Connection` as a plain struct of pins. The .cpp gives it separate
SPI and I2C implementations (`Connection::Spi`, `Connection::I2c`) chosen by
constructor. The model follows the .cpp.

## Model

| member | source | states |
|---|---|---|
| Profiles.Wrap16 | Adafruit_SSD1306.cpp:403-411 | storing into an int16_t keeps the value modulo 2^16 and is the identity on values in range |
| Profiles.BufSize | Adafruit_SSD1306.h:157 | `w * h / 8` is `w` columns times `h / 8` bands when h is a multiple of 8, and fits in uint16_t |
| Profiles.Personality96x16 | Adafruit_SSD1306.h:191-193 | the 96x16 profile is well formed with a 192-byte buffer, a multiple of the 16-byte I2C chunk |
| Profiles.Personality128x32 | Adafruit_SSD1306.h:202-204 | the 128x32 profile is well formed with a 512-byte buffer, a multiple of 16 |
| Profiles.Personality128x64 | Adafruit_SSD1306.h:213-215 | the 128x64 profile is well formed with a 1024-byte buffer, a multiple of 16 |
| Profiles.DefaultPersonality | Adafruit_SSD1306.h:219 | the default device is the 128x32 panel with 512 bytes |
| Profiles.ColoursAndSupplyModesDistinct | Adafruit_SSD1306.h:51-53 | BLACK, WHITE and INVERSE are three different colours, and the two supply modes differ |
| Profiles.ComposedOpcodes | Adafruit_SSD1306.cpp:160-165 | SETSTARTLINE or-ed with 0 and SEGREMAP or-ed with 1 are the opcodes the init sequence sends, and the window opcodes are 0x21/0x22 |
| FrameBuffer.Bit | Adafruit_SSD1306.cpp:89 | the pixel mask `1 << (y & 7)` is never zero |
| FrameBuffer.OneHot | Adafruit_SSD1306.cpp:89 | the pixel mask is one of the eight single-bit bytes |
| FrameBuffer.BitDistinct | Adafruit_SSD1306.cpp:89 | masks of two rows of one band overlap exactly when the rows are equal |
| FrameBuffer.RangeMaskBit | Adafruit_SSD1306.cpp:513-518 | the model's contiguous mask [lo, hi) has bit k set exactly for lo <= k < hi |
| FrameBuffer.RangeMaskFull | Adafruit_SSD1306.cpp:536 | a range mask is 0xFF exactly when it covers the whole byte |
| FrameBuffer.RangeMaskEmpty | Adafruit_SSD1306.cpp:517-518 | an empty row range gives the zero mask |
| FrameBuffer.RangeMaskMeet | Adafruit_SSD1306.cpp:517-518 | and-ing two range masks gives the mask of the intersection of the ranges |
| FrameBuffer.PremaskIsHighBits | Adafruit_SSD1306.cpp:513 | `premask[m]` is exactly the top m bits |
| FrameBuffer.PostmaskIsLowBits | Adafruit_SSD1306.cpp:572 | `postmask[m]` is exactly the low m bits |
| FrameBuffer.ShiftedOnesAreLowBits | Adafruit_SSD1306.cpp:518 | `0xFF >> n` is exactly the low 8 - n bits |
| FrameBuffer.Paint | Adafruit_SSD1306.cpp:90-94 | the colour switch on one byte: WHITE ors the mask in, BLACK clears it, INVERSE flips it, any other colour keeps the byte |
| FrameBuffer.VByte | Adafruit_SSD1306.cpp:521-562 | the vertical run's byte update: the colour switch on a partial byte, and on a whole byte INVERSE complements it while WHITE writes 0xFF and every other colour 0x00 |
| FrameBuffer.PaintBit | Adafruit_SSD1306.cpp:90-94 | the colour switch shades the masked bits (WHITE sets, BLACK clears, INVERSE flips) and keeps every other bit |
| FrameBuffer.VByteIsPaint | Adafruit_SSD1306.cpp:521-525 | the vertical-run byte update is the pixel colour switch, for the three defined colours |
| FrameBuffer.PixelIndexInside | Adafruit_SSD1306.cpp:88 | the byte of an on-screen pixel lies in the buffer, in column x and band y / 8 |
| FrameBuffer.SameByte | Adafruit_SSD1306.cpp:88 | two pixels share a byte exactly when they share column and band |
| FrameBuffer.PixelOfByte | Adafruit_SSD1306.cpp:88-89 | every bit of every buffer byte is the bit of some on-screen pixel |
| FrameBuffer.SamePixelsSameBuffer | Adafruit_SSD1306.cpp:88-89 | two buffers that light the same pixels are equal, so the pixel view loses nothing |
| FrameBuffer.RotateRoundTrip | Adafruit_SSD1306.cpp:72-85 | every in-bounds logical pixel maps onto the panel and back to itself |
| FrameBuffer.UnrotateRoundTrip | Adafruit_SSD1306.cpp:72-85 | every panel pixel is the image of exactly one in-bounds logical pixel |
| FrameBuffer.PaintedUnique | Adafruit_SSD1306.cpp:67-95 | the painting specification determines the resulting buffer |
| FrameBuffer.Rotate | Adafruit_SSD1306.cpp:72-85 | the panel position of logical pixel (x, y): unchanged at rotation 0; (WIDTH - 1 - y, x) at 1; (WIDTH - 1 - x, HEIGHT - 1 - y) at 2; (y, HEIGHT - 1 - x) at 3 |
| FrameBuffer.DrawPixelSpec | Adafruit_SSD1306.cpp:67-95 | the buffer after drawPixel: unchanged outside the logical panel, otherwise the byte of the rotated pixel gets the colour switch with that pixel's bit |
| FrameBuffer.DrawPixelPaints | Adafruit_SSD1306.cpp:67-95 | drawPixel paints exactly logical pixel (x, y) in the colour and leaves the buffer unchanged off-screen |
| FrameBuffer.DrawPixelReadBack | Adafruit_SSD1306.cpp:86-94 | after drawPixel the rotated pixel reads back as its old value shaded by the colour |
| FrameBuffer.DrawPixelIdempotent | Adafruit_SSD1306.cpp:91-92 | drawing the same pixel twice in WHITE or BLACK is the same as drawing it once |
| FrameBuffer.DrawPixelInverseTwice | Adafruit_SSD1306.cpp:93 | drawing a pixel twice in INVERSE restores the buffer |
| FrameBuffer.DrawPixelUndefinedColour | Adafruit_SSD1306.cpp:90-94 | a colour other than the three leaves the buffer unchanged |
| FrameBuffer.HPixelsPaints | Adafruit_SSD1306.cpp:67-95 | drawing a horizontal run pixel by pixel paints exactly that run |
| FrameBuffer.VPixelsPaints | Adafruit_SSD1306.cpp:67-95 | drawing a vertical run pixel by pixel paints exactly that run |
| FrameBuffer.VPixelsUndefinedColour | Adafruit_SSD1306.cpp:90-94 | a pixel-by-pixel run in an undefined colour changes nothing |
| FrameBuffer.HPixels | Adafruit_SSD1306.cpp:67-95 | the reference run: w drawPixel calls at (x, y), (x + 1, y), ..., nothing for w <= 0 |
| FrameBuffer.VPixels | Adafruit_SSD1306.cpp:67-95 | the reference run: h drawPixel calls at (x, y), (x, y + 1), ..., nothing for h <= 0 |
| FrameBuffer.ClipRun | Adafruit_SSD1306.cpp:403-414 | both internal runs' clip (and lines 478-488): a negative start moves to 0 and shortens the length by the int16_t sum, a run past the far edge is cut at the edge; a positive result lies on the panel |
| FrameBuffer.ClipRunIsIntersection | Adafruit_SSD1306.cpp:403-414 | the clipped run is non-empty exactly when the run meets the screen, and it is then the intersection |
| FrameBuffer.ClipRunExact | Adafruit_SSD1306.cpp:403-405 | the corrected clip, with the sum in unbounded arithmetic: non-empty exactly when [start, start + len) meets [0, limit), and then that intersection, for every input |
| FrameBuffer.ClipRunAgrees | Adafruit_SSD1306.cpp:403-414 | the clip as written equals the corrected clip whenever start + len fits in an int16_t |
| FrameBuffer.HLineBytes | Adafruit_SSD1306.cpp:417-437 | the bytes x0 to x1 - 1 of y's band get the colour switch with mask `1 << (y & 7)`, every other byte is kept |
| FrameBuffer.HLineSpec | Adafruit_SSD1306.cpp:398-438 | the buffer after drawFastHLineInternal: unchanged for a row off the panel or an empty clipped run, otherwise the clipped run's bytes painted |
| FrameBuffer.HLineExactSpec | Adafruit_SSD1306.cpp:398-438 | drawFastHLineInternal with the corrected clip |
| FrameBuffer.HLineAgrees | Adafruit_SSD1306.cpp:403-405 | drawFastHLineInternal is the corrected routine whenever x + w fits in an int16_t |
| FrameBuffer.HLineExactPaints | Adafruit_SSD1306.cpp:398-438 | the corrected routine paints exactly row y, columns x to x + w, clipped, for every x and w |
| FrameBuffer.HLineWrapLightsRow | Adafruit_SSD1306.cpp:403-405 | drawFastHLine(-32768, 0, -1, WHITE) on a blank 16x8 panel lights all of row 0, where the pixel-by-pixel run and the corrected routine leave it blank |
| FrameBuffer.HLinePaints | Adafruit_SSD1306.cpp:398-438 | drawFastHLineInternal paints exactly row y, columns x to x + w, clipped |
| FrameBuffer.BandMask | Adafruit_SSD1306.cpp:506-579 | the rows of [y0, y1) that fall in one band, as that byte's bit mask |
| FrameBuffer.VLineBytes | Adafruit_SSD1306.cpp:494-579 | column x of every band gets the vertical byte update with that band's mask, every other byte is kept |
| FrameBuffer.VLineSpec | Adafruit_SSD1306.cpp:473-580 | the buffer after drawFastVLineInternal: unchanged for a column off the panel or an empty clipped run, otherwise the column's bands updated |
| FrameBuffer.VLineExactSpec | Adafruit_SSD1306.cpp:473-580 | drawFastVLineInternal with the corrected clip |
| FrameBuffer.VLineAgrees | Adafruit_SSD1306.cpp:478-482 | drawFastVLineInternal is the corrected routine whenever y + h fits in an int16_t |
| FrameBuffer.VLineExactPaints | Adafruit_SSD1306.cpp:473-580 | for the three colours the corrected routine paints exactly column x, rows y to y + h, clipped, for every y and h |
| FrameBuffer.VLineWrapFillsColumn | Adafruit_SSD1306.cpp:478-482 | drawFastVLine(0, -32768, -1, WHITE) on a blank 1x16 panel fills column 0, where the pixel-by-pixel run and the corrected routine leave it blank |
| FrameBuffer.BandMaskBit | Adafruit_SSD1306.cpp:506-579 | the mask the vertical run uses for a band has bit k exactly for rows y0 <= 8 * band + k < y1 |
| FrameBuffer.VLineBytesLit | Adafruit_SSD1306.cpp:494-579 | updating column x band by band shades exactly the pixels of the run |
| FrameBuffer.VLinePaints | Adafruit_SSD1306.cpp:473-580 | drawFastVLineInternal paints exactly column x, rows y to y + h, clipped |
| FrameBuffer.VLineUndefinedColourClears | Adafruit_SSD1306.cpp:549-562 | an undefined colour writes 0x00 into a whole middle byte, where drawing pixel by pixel changes nothing |
| FrameBuffer.VLineWorkedExample | Adafruit_SSD1306.cpp:506-579 | rows 3 to 12 of a 16-row column give bytes 0xF8 and 0x1F |
| FrameBuffer.FastHLineSpec | Adafruit_SSD1306.cpp:364-396 | the buffer after drawFastHLine: the rotation chooses the internal run, with the coordinates swapped, mirrored and shifted as written and each int16_t store wrapped |
| FrameBuffer.FastVLineSpec | Adafruit_SSD1306.cpp:440-471 | the buffer after drawFastVLine, dispatched the same way |
| FrameBuffer.FastHLinePaints | Adafruit_SSD1306.cpp:364-396 | drawFastHLine paints exactly the logical run in every rotation |
| FrameBuffer.FastHLineQuarter | Adafruit_SSD1306.cpp:370-375 | at rotation 1 the swapped vertical run is the logical horizontal run |
| FrameBuffer.FastHLineHalf | Adafruit_SSD1306.cpp:376-381 | at rotation 2 the mirrored, shifted run is the logical run |
| FrameBuffer.FastHLineThreeQuarters | Adafruit_SSD1306.cpp:382-388 | at rotation 3 the swapped, shifted vertical run is the logical run |
| FrameBuffer.FastHLineMatchesPixels | Adafruit_SSD1306.cpp:364-396 | drawFastHLine equals drawing the run pixel by pixel |
| FrameBuffer.FastVLinePaints | Adafruit_SSD1306.cpp:440-471 | drawFastVLine paints exactly the logical run in every rotation |
| FrameBuffer.FastVLineQuarter | Adafruit_SSD1306.cpp:445-451 | at rotation 1 the swapped, shifted horizontal run is the logical vertical run |
| FrameBuffer.FastVLineHalf | Adafruit_SSD1306.cpp:452-457 | at rotation 2 the mirrored, shifted run is the logical run |
| FrameBuffer.FastVLineThreeQuarters | Adafruit_SSD1306.cpp:458-463 | at rotation 3 the swapped horizontal run is the logical run |
| FrameBuffer.FastVLineMatchesPixels | Adafruit_SSD1306.cpp:440-471 | drawFastVLine equals drawing the run pixel by pixel |
| Transport.MsbMaskStep | Adafruit_SSD1306.cpp:358 | the bit loop's mask reaches zero exactly after eight shifts, moving one bit down each time |
| Transport.MsbMaskValues | Adafruit_SSD1306.cpp:358 | the loop visits 0x80, 0x40, ..., 0x01 and then stops |
| Transport.FromBitsOf | Adafruit_SSD1306.cpp:357-360 | reassembling the eight bits clocked out MSB first gives the byte back |
| Transport.SpiDataFrame | Adafruit_SSD1306.cpp:312-318 | a data write is CS high, DC high, CS low, the bytes, CS high |
| Transport.ByteEvents | Adafruit_SSD1306.cpp:352-362 | fastSPIwrite: one hardware transfer, or for each bit from the top a clock low, SID set to the bit, a clock high |
| Transport.SpiBytes | Adafruit_SSD1306.cpp:314-316 | fastSPIwrite of each byte in turn |
| Transport.WireWrites | Adafruit_SSD1306.cpp:326-329 | one Wire write per byte, in order |
| Transport.I2cChunk | Adafruit_SSD1306.cpp:323-331 | one transmission: begin at the address, control byte 0x40, the bytes, end |
| Transport.I2cChunks | Adafruit_SSD1306.cpp:320-333 | the data as consecutive 16-byte transmissions |
| Transport.CommandEvents | Adafruit_SSD1306.cpp:194-209 | command(c): on SPI CS high, DC low, CS low, the byte, CS high; on I2C one transmission of control byte 0x00 and c |
| Transport.CommandsEvents | Adafruit_SSD1306.cpp:215-217 | one command after another, in order |
| Transport.DataEvents | Adafruit_SSD1306.cpp:307-333 | writeBuffer: on SPI one data frame of all the bytes, on I2C the 16-byte transmissions |
| Transport.StartEvents | Adafruit_SSD1306.cpp:99-128 | the link's begin: the SPI peripheral on hardware SPI, nothing on software SPI, Wire on I2C |
| Transport.Connection.SoftwareSpi | Adafruit_SSD1306.cpp:54-55 | the software-SPI link keeps its pins and starts with an empty trace |
| Transport.Connection.HardwareSpi | Adafruit_SSD1306.cpp:56-57 | the hardware-SPI link has no SID/SCLK pins |
| Transport.Connection.I2cWithReset | Adafruit_SSD1306.cpp:58-59 | an I2C link with a reset pin |
| Transport.Connection.I2cNoReset | Adafruit_SSD1306.cpp:60-61 | an I2C link with no reset pin connected |
| Transport.Connection.Begin | Adafruit_SSD1306.cpp:100-130 | begin stores the I2C address (SPI links ignore it) and emits the bus start-up |
| Transport.Connection.SetReset | Adafruit_SSD1306.cpp:138-143 | driving the reset pin appends that level to the trace |
| Transport.Connection.FastSpiWrite | Adafruit_SSD1306.cpp:352-362 | one hardware transfer, or eight clock pulses with SID set MSB first |
| Transport.Connection.Command | Adafruit_SSD1306.cpp:194-213 | a command is one SPI frame with DC low, or one I2C transmission with control byte 0x00 |
| Transport.Connection.WriteBuffer | Adafruit_SSD1306.cpp:307-309 | writeBuffer emits the data frames of the first n buffer bytes on either link |
| Transport.Connection.SpiWriteBuffer | Adafruit_SSD1306.cpp:311-319 | the SPI data frame carries the n bytes in order |
| Transport.Connection.I2cWriteBuffer | Adafruit_SSD1306.cpp:320-333 | the bytes go out in 16-byte transmissions, each opened with control byte 0x40 |
| Transport.BitBangDelivers | Adafruit_SSD1306.cpp:356-360 | a selected SPI receiver that shifts in the eight clocked bits gets exactly the byte |
| Transport.ByteDelivered | Adafruit_SSD1306.cpp:352-362 | either kind of SPI write delivers the byte as one frame |
| Transport.SpiBytesDelivered | Adafruit_SSD1306.cpp:314-316 | the byte loop delivers every byte as data, in order |
| Transport.WireWritesDelivered | Adafruit_SSD1306.cpp:326-329 | the writes inside one transmission arrive as data frames, in order |
| Transport.I2cChunksDelivered | Adafruit_SSD1306.cpp:320-333 | the chunked I2C write delivers the whole buffer as data, in order |
| Transport.I2cChunkCount | Adafruit_SSD1306.cpp:320-333 | n bytes take n / 16 transmissions of 19 bus events each |
| Transport.SpiCommandDelivered | Adafruit_SSD1306.cpp:194-201 | an SPI command arrives as one command frame and leaves the chip deselected |
| Transport.I2cCommandDelivered | Adafruit_SSD1306.cpp:203-209 | an I2C command arrives as one command frame at the addressed device |
| Transport.CommandDelivered | Adafruit_SSD1306.cpp:211-213 | on either link a command adds exactly one command frame |
| Transport.CommandsDelivered | Adafruit_SSD1306.cpp:215-217 | a sequence of commands arrives as the same sequence of command frames |
| Transport.SpiDataDelivered | Adafruit_SSD1306.cpp:311-319 | the SPI data write delivers the buffer as data frames |
| Transport.DataDelivered | Adafruit_SSD1306.cpp:307-309 | on either link the data write delivers the buffer as data frames |
| Transport.CommandsThenDataDelivered | Adafruit_SSD1306.cpp:335-345 | commands followed by a buffer write arrive as those commands then those data bytes |
| Controller.CommandByteWaits | Adafruit_SSD1306.cpp:215-217 | a byte that does not complete a command is held as a pending argument |
| Controller.CommandByteRuns | Adafruit_SSD1306.cpp:215-217 | the byte that completes a command executes it and empties the pending bytes |
| Controller.ReceiveCommand | Adafruit_SSD1306.cpp:215-217 | an opcode and its arguments sent one byte at a time execute that command once |
| Controller.ExecuteContrast | Adafruit_SSD1306.cpp:302-304 | SETCONTRAST sets only the contrast |
| Controller.ExecuteInvert | Adafruit_SSD1306.cpp:186-192 | INVERTDISPLAY/NORMALDISPLAY set only the inversion flag |
| Controller.ExecuteScrollSwitch | Adafruit_SSD1306.cpp:283-285 | ACTIVATE/DEACTIVATE_SCROLL switch only the scrolling flag |
| Controller.StartHorizontalScroll | Adafruit_SSD1306.cpp:223-232 | a horizontal scroll setup then ACTIVATE starts that scroll |
| Controller.StartDiagonalScroll | Adafruit_SSD1306.cpp:253-264 | the vertical area, the diagonal setup, then ACTIVATE start the diagonal scroll over that area |
| Controller.ExecuteWindow | Adafruit_SSD1306.cpp:336-342 | COLUMNADDR and PAGEADDR set the window and put the pointer at its corner |
| Controller.HorizontalPointer | Adafruit_SSD1306.cpp:335-345 | after k data bytes into a fresh horizontal window of W columns, the pointer is at page k / W, column k % W |
| Controller.HorizontalFill | Adafruit_SSD1306.cpp:335-345 | after k data bytes, RAM cell (page, column) holds byte page * W + column for every byte sent |
| Display.HeadMask | Adafruit_SSD1306.cpp:513-519 | the first partial byte's mask is exactly the band mask of the run's first band, never 0xFF |
| Display.NarrowHeadMask | Adafruit_SSD1306.cpp:517-518 | a run ending inside its first byte narrows the premask to exactly its rows |
| Display.WholeHeadMask | Adafruit_SSD1306.cpp:513-514 | a run that reaches the band's end uses the whole premask |
| Display.MiddleMask | Adafruit_SSD1306.cpp:536-563 | a band the run covers fully has mask 0xFF, so the whole byte is written |
| Display.TailMask | Adafruit_SSD1306.cpp:567-573 | `postmask[h]` is exactly the band mask of the last partial byte |
| Display.HeadBand | Adafruit_SSD1306.cpp:506-533 | after the head, the remaining rows start on the next band boundary, or the run ends in the first band |
| Display.RowFits | Adafruit_SSD1306.cpp:417 | the horizontal run's bytes lie in the buffer |
| Display.BandFits | Adafruit_SSD1306.cpp:499-503 | every band pointer of the vertical run lies in the buffer |
| Display.PaintedRangeUndefinedColour | Adafruit_SSD1306.cpp:420-437 | a horizontal run in an undefined colour changes nothing |
| Display.HLineSpecClipped | Adafruit_SSD1306.cpp:417-437 | a non-empty clipped run is the byte range from `(y / 8) * WIDTH + x` painted with mask `1 << (y & 7)` |
| Display.TimingEffect | Adafruit_SSD1306.cpp:151-156 | the first init group turns the panel off and sets the clock divider and the multiplex ratio |
| Display.LayoutEffect | Adafruit_SSD1306.cpp:158-168 | the layout group sets offset, start line, charge pump, horizontal addressing, remap, scan direction and COM pins |
| Display.LayoutHeadEffect | Adafruit_SSD1306.cpp:158-162 | offset 0, start line 0 and the charge pump setting |
| Display.PumpEffect | Adafruit_SSD1306.cpp:160-162 | start line 0 and the charge pump setting |
| Display.LayoutTailEffect | Adafruit_SSD1306.cpp:163-168 | horizontal addressing, column 127 remap, descending scan and the COM pins |
| Display.AddressingModeEffect | Adafruit_SSD1306.cpp:163-165 | horizontal addressing mode and the column remap |
| Display.ComScanEffect | Adafruit_SSD1306.cpp:166-168 | descending COM scan and the COM pin configuration |
| Display.LevelsEffect | Adafruit_SSD1306.cpp:170-176 | contrast, precharge and VCOMH deselect level 0x40 |
| Display.ChargeEffect | Adafruit_SSD1306.cpp:173-176 | precharge and VCOMH deselect level |
| Display.FinishEffect | Adafruit_SSD1306.cpp:177-182 | resume from RAM, normal (non-inverted) display, scrolling off, panel on |
| Display.FinishTailEffect | Adafruit_SSD1306.cpp:178-182 | normal display, scrolling off, panel on |
| Display.ShowEffect | Adafruit_SSD1306.cpp:180-182 | scrolling off and panel on |
| Display.InitEffect | Adafruit_SSD1306.cpp:146-182 | begin's command list leaves the controller in the initialised state for the profile and supply mode |
| Display.InitGroupsEffect | Adafruit_SSD1306.cpp:151-182 | the four init groups together set every register the driver programs |
| Display.InitRestEffect | Adafruit_SSD1306.cpp:158-182 | the init sequence after the timing group |
| Display.InitEndEffect | Adafruit_SSD1306.cpp:170-182 | the init sequence after the layout group |
| Display.InvertEffect | Adafruit_SSD1306.cpp:186-192 | invertDisplay changes only the inversion flag, to the argument |
| Display.DimEffect | Adafruit_SSD1306.cpp:290-305 | dim sets contrast 0, or 0x9F with external VCC, or 0xCF otherwise, and nothing else |
| Display.HorizontalScrollEffect | Adafruit_SSD1306.cpp:223-247 | a horizontal scroll command list starts that scroll over pages start to stop |
| Display.DiagonalScrollEffect | Adafruit_SSD1306.cpp:253-281 | a diagonal scroll command list sets the vertical area to all rows and starts the scroll |
| Display.StopScrollEffect | Adafruit_SSD1306.cpp:283-285 | stopscroll only stops scrolling |
| Display.DisplayWindowEffect | Adafruit_SSD1306.cpp:336-342 | display's window covers all WIDTH columns and HEIGHT / 8 pages, pointer at the origin |
| Display.RamShowsBuffer | Adafruit_SSD1306.cpp:335-345 | RAM filled with the buffer lights exactly the buffer's pixels |
| Display.DisplayShowsBuffer | Adafruit_SSD1306.cpp:335-345 | after display(), the controller shows exactly the framebuffer, and look, drive and scrolling are unchanged |
| Display.ClearedIsDark | Adafruit_SSD1306.cpp:348-350 | an all-zero buffer lights no pixel |
| Display.InitCommands | Adafruit_SSD1306.cpp:151-182 | begin's 26 command bytes in four groups; the supply mode picks the charge pump, contrast and precharge values, the profile the multiplex ratio and COM pins |
| Display.InvertCommands | Adafruit_SSD1306.cpp:186-192 | INVERTDISPLAY or NORMALDISPLAY |
| Display.DimCommands | Adafruit_SSD1306.cpp:290-305 | SETCONTRAST and 0 when dimmed, else 0x9F with external VCC or 0xCF |
| Display.HorizontalScrollCommands | Adafruit_SSD1306.cpp:223-247 | the scroll opcode, 0, start page, 0, stop page, 0, 0xFF, ACTIVATE_SCROLL |
| Display.DiagonalScrollCommands | Adafruit_SSD1306.cpp:253-281 | the vertical area 0 to HEIGHT rows, the scroll opcode, 0, start, 0, stop, offset 1, ACTIVATE_SCROLL |
| Display.StopScrollCommands | Adafruit_SSD1306.cpp:283-285 | DEACTIVATE_SCROLL |
| Display.DisplayCommands | Adafruit_SSD1306.cpp:336-342 | COLUMNADDR 0 to WIDTH - 1 and PAGEADDR 0 to HEIGHT / 8 - 1 |
| Display.Ssd1306.constructor | Adafruit_SSD1306.cpp:97-98 | a driver over a well-formed profile, its buffer and link, at rotation 0 |
| Display.Ssd1306.SetRotation | Adafruit_SSD1306.cpp:72 | the rotation the drawing calls read is the one set |
| Display.Ssd1306.Command | Adafruit_SSD1306.cpp:215-217 | ssd1306_command emits one command and the controller receives that byte |
| Display.Ssd1306.SendCommands | Adafruit_SSD1306.cpp:215-217 | a list of command bytes is emitted and received in order |
| Display.Ssd1306.Begin | Adafruit_SSD1306.cpp:132-183 | begin stores the supply mode, starts the link, pulses reset if asked and wired, and sends the init list; the arguments default as the header declares |
| Display.Ssd1306.BeginDefault | Adafruit_SSD1306.h:138 | begin() with no arguments uses the switched-capacitor supply, I2C address 0x3C and a reset pulse whenever a reset pin is connected, and sends the switched-capacitor init list |
| Display.Ssd1306.InvertDisplay | Adafruit_SSD1306.cpp:186-192 | sends INVERTDISPLAY or NORMALDISPLAY |
| Display.Ssd1306.StartScrollRight | Adafruit_SSD1306.cpp:223-232 | sends the right-scroll setup and ACTIVATE |
| Display.Ssd1306.StartScrollLeft | Adafruit_SSD1306.cpp:238-247 | sends the left-scroll setup and ACTIVATE |
| Display.Ssd1306.StartScrollDiagRight | Adafruit_SSD1306.cpp:253-264 | sends the vertical area (0, HEIGHT), the diagonal-right setup and ACTIVATE |
| Display.Ssd1306.StartScrollDiagLeft | Adafruit_SSD1306.cpp:270-281 | sends the vertical area (0, HEIGHT), the diagonal-left setup and ACTIVATE |
| Display.Ssd1306.StopScroll | Adafruit_SSD1306.cpp:283-285 | sends DEACTIVATE_SCROLL |
| Display.Ssd1306.Dim | Adafruit_SSD1306.cpp:290-305 | sends SETCONTRAST with the dim or the supply-dependent contrast |
| Display.Ssd1306.Display | Adafruit_SSD1306.cpp:335-345 | sends the full-screen window then the whole buffer as data |
| Display.Ssd1306.ClearDisplay | Adafruit_SSD1306.cpp:348-350 | every buffer byte becomes 0, so no pixel is lit |
| Display.Ssd1306.PaintByte | Adafruit_SSD1306.cpp:90-94 | one buffer byte gets the colour switch with the mask, every other byte is kept |
| Display.Ssd1306.DrawPixel | Adafruit_SSD1306.cpp:67-95 | the buffer becomes the drawPixel specification of the old buffer |
| Display.Ssd1306.DrawFastHLine | Adafruit_SSD1306.cpp:364-396 | the buffer becomes the drawFastHLine specification: the rotation dispatch onto the internal runs |
| Display.Ssd1306.DrawFastVLine | Adafruit_SSD1306.cpp:440-471 | the buffer becomes the drawFastVLine specification |
| Display.Ssd1306.DrawFastHLineInternal | Adafruit_SSD1306.cpp:398-438 | the buffer becomes the clipped horizontal run specification |
| Display.Ssd1306.Clip | Adafruit_SSD1306.cpp:403-414 | the clip statements of either internal run (lines 478-488 too) return exactly ClipRun's start and length |
| Display.Ssd1306.PaintRow | Adafruit_SSD1306.cpp:420-437 | the colour switch over the run's n bytes paints exactly those bytes |
| Display.Ssd1306.OrRun | Adafruit_SSD1306.cpp:421-425 | the WHITE loop ors the mask into exactly the run's bytes |
| Display.Ssd1306.AndRun | Adafruit_SSD1306.cpp:426-431 | the BLACK loop ands `~mask` into exactly the run's bytes |
| Display.Ssd1306.XorRun | Adafruit_SSD1306.cpp:432-436 | the INVERSE loop xors the mask into exactly the run's bytes |
| Display.Ssd1306.DrawFastVLineInternal | Adafruit_SSD1306.cpp:473-580 | the buffer becomes the clipped vertical run specification |
| Display.Ssd1306.PaintColumn | Adafruit_SSD1306.cpp:494-579 | head, middle bands and tail together update exactly the column's bands of the run |
| Display.Ssd1306.PaintHead | Adafruit_SSD1306.cpp:506-533 | the first partial byte is updated with its band mask |
| Display.Ssd1306.PaintTail | Adafruit_SSD1306.cpp:567-579 | the last partial byte is updated with its band mask |
| Display.Ssd1306.PaintBand | Adafruit_SSD1306.cpp:521-525 | a partial byte gets the colour switch with its band mask |
| Display.Ssd1306.InvertBands | Adafruit_SSD1306.cpp:537-548 | the INVERSE loop flips every full band and leaves fewer than 8 rows |
| Display.Ssd1306.FillBands | Adafruit_SSD1306.cpp:549-563 | the WHITE/BLACK loop writes 0xFF/0x00 to every full band and leaves fewer than 8 rows |
| Literals.Decimal | splash/make_splash.py:29 | `{:d}` gives a non-empty digit string with no leading zero |
| Literals.DecimalRoundTrip | splash/make_splash.py:29 | reading the decimal text back gives the number |
| Literals.Hex2 | splash/make_splash.py:35 | `0x{:02X}` gives "0x" and two upper-case hex digits |
| Literals.Hex2RoundTrip | splash/make_splash.py:35 | reading the token back gives the byte |
| Literals.Hex2Injective | splash/make_splash.py:35 | different bytes give different tokens |
| Literals.TokenOffsetClosed | splash/make_splash.py:36-43 | token k starts at 6k plus the extra line-break length of the k / 16 breaks before it |
| Literals.Listed | splash/make_splash.py:36-43 | the "0xHH" tokens of the first n bytes, separated by ", " within a line and by a comma and the line break before every sixteenth token |
| Literals.JoinedLine | splash/make_splash.py:37-41 | joining up to 16 tokens with ", " extends the listing by one line |
| Literals.ListedEnd | splash/make_splash.py:37-43 | the listing ends with the last byte's token |
| Literals.ListedToken | splash/make_splash.py:37-43 | the token at offset k is the token of byte k |
| Literals.ListedReadsBack | splash/make_splash.py:37-43 | every byte reads back from its token in the listing |
| Packing.StripByteBit | splash/make_splash.py:19-22 | bit k of a strip byte is set exactly when pixel (x, 8b + k) is non-zero |
| Packing.StripByte | splash/make_splash.py:19-22 | the byte of column x, band b: bit k set when pixel (x, 8b + k) is non-zero |
| Packing.Packed | splash/make_splash.py:15-24 | the vertical-byte packing: byte x + b * w is column x's strip of band b |
| Packing.PackedLength | splash/make_splash.py:15-24 | the packing has w bytes per band |
| Packing.PackedByte | splash/make_splash.py:17-23 | byte x + b * w is the strip of column x, band b |
| Packing.PackedShowsImage | splash/make_splash.py:15-24 | the packing, read with the driver's layout, lights exactly the non-zero pixels |
| Packing.UnpackPacked | splash/make_splash.py:15-24 | unpacking the packing gives the image's pixels as 0/1 |
| Packing.PackedUnpack | splash/make_splash.py:15-24 | packing an unpacked buffer gives the buffer back |
| Packing.PackedSetBit | extras/make_splash.py:40-42 | or-ing bit `j & 7` into byte `i + (j / 8) * w` packs the image with pixel (i, j) added |
| Splash.Threshold | splash/make_splash.py:92-95 | the result is 0x00 or 0xFF, and 0x00 exactly below 0x20 |
| Splash.ThresholdMonotone | splash/make_splash.py:92-95 | the threshold is monotone and idempotent |
| Splash.VerticalBytes | splash/make_splash.py:15-24 | the packer's output is the packing of the image |
| Splash.SplashShowsImage | splash/make_splash.py:97-102 | the generated bytes light exactly the pixels whose grey level is at least 0x20 |
| Splash.ArrayDefinition | splash/make_splash.py:26-44 | the method builds exactly the array text |
| Splash.ArrayText | splash/make_splash.py:26-44 | the declaration line with the name and size, a two-space indent, the listed tokens of the first (h / 8) * w bytes, then "};" |
| Splash.DefaultName | splash/make_splash.py:70 | the default name format applied to w and h: "Adafruit_SSD1306_{w}x{h}::splash" |
| Splash.DefaultSymbols | splash/make_splash.py:70 | for each of the three sizes the default name is the driver's splash symbol for that panel |
| Splash.ArrayTextOpens | splash/make_splash.py:28-30 | a declaration opens with "const uint8_t PROGMEM", the name, and "[w * h / 8] = {" |
| Splash.DefaultDeclarationOpens | splash/make_splash.py:97-103 | under the default name format, the declaration printed for each size opens with that size's symbol and extent, e.g. Adafruit_SSD1306_96x16::splash[96 * 16 / 8] |
| Splash.ArrayTextReadsBack | splash/make_splash.py:26-44 | the text starts with the declaration, ends with "};", and every byte reads back from its token |
| Splash.GroupPosIsMod | splash/make_splash.py:51 | the position in an 8-pixel group is `i & 7` |
| Splash.CellDigit | splash/make_splash.py:51-58 | each pixel's cell carries exactly one binary digit, the pixel's |
| Splash.CellsDigits | splash/make_splash.py:50-58 | the digits of a row's cells are its pixels, in order |
| Splash.LineDigits | splash/make_splash.py:49-59 | the comment line adds no digits beyond its cells |
| Splash.BitmapDefinition | splash/make_splash.py:46-60 | the method builds exactly the bitmap comment text |
| Splash.BitmapText | splash/make_splash.py:46-60 | one comment line per image row, each pixel as its binary digit, each group of eight opened by "B" and closed by a comma |
| Splash.BitmapDigits | splash/make_splash.py:46-60 | the comment's digits, read row by row, are the image's pixels |
| Splash.Generate | splash/make_splash.py:97-103 | one declaration per size, each the packing of that size's thresholded image |
| SplashExtras.MakeMatrix | extras/make_splash.py:13-22 | no matrix exactly when a pixel of the 128x64 corner is outside the image (getpixel's IndexError); otherwise the 128x64 matrix with 1 exactly where the image pixel is 0 |
| SplashExtras.Covers | extras/make_splash.py:15-19 | the image has 64 rows, each at least 128 pixels wide |
| SplashExtras.InvertedRow | extras/make_splash.py:17-20 | one matrix row: 1 where the pixel is 0, 0 where it is not |
| SplashExtras.Inverted | extras/make_splash.py:13-22 | the 64 inverted rows of the image's top-left corner |
| SplashExtras.PackedBlank | extras/make_splash.py:36 | the all-zero start value is the packing of an empty image |
| SplashExtras.TailIndex | extras/make_splash.py:40 | the index lies inside `out` exactly when the row lies in a whole band |
| SplashExtras.MaskStep | extras/make_splash.py:39-42 | each pixel step keeps `out` equal to the packing of the pixels seen so far |
| SplashExtras.VerticalBytes | extras/make_splash.py:33-43 | fails exactly when a set pixel lies in a partial last band, and otherwise returns the packing |
| SplashExtras.TokensListed | extras/make_splash.py:48-56 | the token loop writes the 16-per-line listing with a comma after each token |
| SplashExtras.TokenStep | extras/make_splash.py:51-56 | each step adds a newline, a space or nothing, then the token and a comma |
| SplashExtras.Finish | extras/make_splash.py:57-58 | dropping the trailing comma and adding "};" gives the definition text |
| SplashExtras.AppendTokens | extras/make_splash.py:48-56 | the loop appends exactly the token listing |
| SplashExtras.ArrayDefinition | extras/make_splash.py:45-59 | the method builds exactly the definition text |
| SplashExtras.DefinitionText | extras/make_splash.py:45-59 | the declaration line for w x h, the first (h / 8) * w tokens sixteen to a line with the trailing comma dropped, then "};" |
| SplashExtras.DefinitionReadsBack | extras/make_splash.py:45-59 | the text starts with the declaration, ends with "};", and every byte reads back |
| SplashExtras.Convert | extras/make_splash.py:61-68 | fails exactly when the image does not cover 128x64; otherwise the three declarations list prefixes of the single 128x64 packing |
| SplashExtras.DarkPixelsLit | extras/make_splash.py:13-43 | the 128x64 packing lights exactly the dark pixels |
| SplashExtras.ShiftedSmallSplash | extras/make_splash.py:66 | for an image with pixel (0, 8) dark, the 96x16 declaration does not light that pixel |
| SplashExtras.WindowShowsCorner | extras/make_splash.py:66-68 | the windowed bytes light the panel's top-left w x h corner of the 128x64 image |
| SplashExtras.Window | extras/make_splash.py:66-68 | the corrected bytes for a w x h panel: byte j * w + i is column i of band j of the 128-wide packing |
| SplashExtras.WindowFullWidth | extras/make_splash.py:67-68 | for 128-wide panels the window is the prefix the script prints |
| SplashExtras.ConvertWindowed | extras/make_splash.py:61-68 | fails exactly when the image does not cover 128x64; otherwise each declaration lists the window for its panel size |
| SplashExtras.WindowedSplashShowsImage | extras/make_splash.py:61-68 | each windowed declaration lights exactly the dark pixels of its corner |

## Left out

- Timing is not modelled: `delay`, the 8 MHz SPI clock, `FastI2CGuard` and the TWBR change, and the SAM3X I2C clock setup. Pin directions (`outputMode`) are not modelled either. None of these changes which bytes are sent.
- Adafruit_GFX is not part of this model. Rotation, `width()` and `height()` are parameters, and `swap` is written as a swap of coordinates.
- The controller is reduced to the registers the driver programs, plus display RAM written in horizontal addressing mode. Page and vertical addressing modes are not modelled.
- The controller's state after a hardware reset is a parameter of `Display.Ssd1306.Begin`.
- Bus start-up is one trace event: `Wire.begin()` on I2C, `SPI.begin()` on hardware SPI, nothing on software SPI. The I2C address given to begin is the one later transmissions use.
- Transport.Connection.I2cWriteBuffer: requires n to be a multiple of 16. For any other n the source reads past the n bytes it was given. Every profile's buffer size is a multiple of 16.
- Colours other than BLACK, WHITE and INVERSE are modelled as written. Such a colour leaves pixels, horizontal runs and partial bytes unchanged, but the vertical run writes 0x00 into each whole middle byte. Hence FrameBuffer.FastHLinePaints, FrameBuffer.FastVLinePaints, FrameBuffer.VLinePaints, FrameBuffer.FastHLineMatchesPixels and FrameBuffer.FastVLineMatchesPixels require a defined colour where a vertical run is drawn.
- FrameBuffer.FastHLinePaints, FrameBuffer.FastVLinePaints, FrameBuffer.FastHLineQuarter, FrameBuffer.FastHLineHalf, FrameBuffer.FastHLineThreeQuarters, FrameBuffer.FastVLineQuarter, FrameBuffer.FastVLineHalf, FrameBuffer.FastVLineThreeQuarters, FrameBuffer.FastHLineMatchesPixels and FrameBuffer.FastVLineMatchesPixels require coordinates and lengths within ±0x2000 (`NoWrap`). Outside that range the int16 arithmetic of the dispatch can wrap. The methods themselves model the wrap with `Wrap16` wherever the source stores an int result into an int16_t.
- FrameBuffer.FastHLineQuarter: requires `NoWrap`, for the int16 dispatch arithmetic described above.
- FrameBuffer.FastHLineHalf: requires `NoWrap`, for the int16 dispatch arithmetic described above.
- FrameBuffer.FastHLineThreeQuarters: requires `NoWrap`, for the int16 dispatch arithmetic described above.
- FrameBuffer.FastVLineQuarter: requires `NoWrap`, for the int16 dispatch arithmetic described above.
- FrameBuffer.FastVLineHalf: requires `NoWrap`, for the int16 dispatch arithmetic described above.
- FrameBuffer.FastVLineThreeQuarters: requires `NoWrap`, for the int16 dispatch arithmetic described above.
- FrameBuffer.FastHLineMatchesPixels: requires `NoWrap` and a defined colour, for the two reasons above.
- FrameBuffer.FastVLineMatchesPixels: requires `NoWrap` and a defined colour, for the two reasons above.
- FrameBuffer.HLinePaints, FrameBuffer.VLinePaints and FrameBuffer.ClipRunIsIntersection require `x + w` (or `y + h`) to stay within int16 range. The sum's wrap is modelled in `ClipRun`, and the runs it draws outside that range are the second and third findings below.
- Pillow is not modelled: opening, `convert`, `resize`, `point` and `save`. The resized grey image is a parameter, and a pixel is an integer; RGB tuples are not modelled.
- The command-line handling of both scripts is not modelled: `getopt`, `usage`, the `-v` stderr dump and the `-o` bitmap export. In `Splash.Generate` the name of each array is a parameter.
- `dumpBmp` in extras/make_splash.py is not modelled, because its only call is commented out.
- Python's `print` adds a newline after each declaration. The model returns the declarations without it.
- `splash/make_splash.py` is written for Python 2: `im.height / 8` is integer division there, and the model uses integer division.
- The two `decl +=` loops of `extras/make_splash.py` `arrayDefinition` are modelled by one helper method, `AppendTokens`, called from `ArrayDefinition`.
- Splash.ArrayTextReadsBack: does not state the text's total length, only its start, its end and where every byte's token sits.

## Findings

| source | as written | input that shows it | evidently intended | confidence | as-written member | corrected member |
|---|---|---|---|---|---|---|
| extras/make_splash.py:66 | the 96x16 declaration lists bytes 0 to 191 of the 128-column packing, so its second band holds columns 96 to 127 of band 0 and columns 0 to 63 of band 1 | `SplashExtras.OneDark`: a 128x64 image whose only dark pixel is (0, 8); the 96x16 splash leaves that pixel unlit | each panel shows the top-left w x h corner of the image, as the 128-wide panels do | medium (not executed) | SplashExtras.ShiftedSmallSplash | SplashExtras.WindowedSplashShowsImage |
| Adafruit_SSD1306.cpp:403-405 | `w += x` is stored into an int16_t, so a negative x with a negative w whose sum is below -32768 wraps to a large width, which is then cut at the right edge | `FrameBuffer.HLineWrapLightsRow`: drawFastHLine(-32768, 0, -1, WHITE) on a blank 16x8 panel lights all 16 pixels of row 0 | a run with w <= 0 draws nothing, as drawing it pixel by pixel does | low (not executed) | FrameBuffer.HLineWrapLightsRow | FrameBuffer.HLineExactPaints |
| Adafruit_SSD1306.cpp:478-482 | `h += y` wraps in the same way in the vertical run | `FrameBuffer.VLineWrapFillsColumn`: drawFastVLine(0, -32768, -1, WHITE) on a blank 1x16 panel fills column 0 | a run with h <= 0 draws nothing | low (not executed) | FrameBuffer.VLineWrapFillsColumn | FrameBuffer.VLineExactPaints |
