/** Constants, opcodes and per-model profiles of the SSD1306 driver header
    (Adafruit_SSD1306.h). */
module Profiles {

  /** One byte on the wire or in the framebuffer (C++ uint8_t). */
  type Byte = bv8

  /** Values a C++ int16_t can hold: the coordinates and lengths of the drawing calls. */
  type Int16 = v: int | -0x8000 <= v < 0x8000

  /** Values a C++ uint8_t can hold, used for the profile's width and height. */
  type U8 = v: int | 0 <= v < 0x100

  /** Values a C++ uint16_t can hold, used for colours. */
  type U16 = v: int | 0 <= v < 0x1_0000

  /** Storing an int expression into an int16_t: two's complement wrap-around. */
  function Wrap16(v: int): (r: Int16)
    ensures (r - v) % 0x1_0000 == 0
    ensures -0x8000 <= v < 0x8000 ==> r == v
  {
    (v + 0x8000) % 0x1_0000 - 0x8000
  }

  // Colours accepted by drawPixel and the fast lines.
  const BLACK: U16 := 0
  const WHITE: U16 := 1
  const INVERSE: U16 := 2

  // Supply mode selected at begin().
  const EXTERNALVCC: Byte := 0x01
  const SWITCHCAPVCC: Byte := 0x02

  const I2C_ADDRESS: Byte := 0x3C

  // Command opcodes of the controller.
  const SETCONTRAST: Byte := 0x81
  const DISPLAYALLON_RESUME: Byte := 0xA4
  const DISPLAYALLON: Byte := 0xA5
  const NORMALDISPLAY: Byte := 0xA6
  const INVERTDISPLAY: Byte := 0xA7
  const DISPLAYOFF: Byte := 0xAE
  const DISPLAYON: Byte := 0xAF
  const SETDISPLAYOFFSET: Byte := 0xD3
  const SETCOMPINS: Byte := 0xDA
  const SETVCOMDETECT: Byte := 0xDB
  const SETDISPLAYCLOCKDIV: Byte := 0xD5
  const SETPRECHARGE: Byte := 0xD9
  const SETMULTIPLEX: Byte := 0xA8
  const SETLOWCOLUMN: Byte := 0x00
  const SETHIGHCOLUMN: Byte := 0x10
  const SETSTARTLINE: Byte := 0x40
  const MEMORYMODE: Byte := 0x20
  const COLUMNADDR: Byte := 0x21
  const PAGEADDR: Byte := 0x22
  const COMSCANINC: Byte := 0xC0
  const COMSCANDEC: Byte := 0xC8
  const SEGREMAP: Byte := 0xA0
  /** SETSTARTLINE with start line 0, as begin() sends it. */
  const STARTLINE_ZERO: Byte := 0x40
  /** SEGREMAP with bit 0 set: column 127 drives segment 0, as begin() sends it. */
  const SEGREMAP_COL127: Byte := 0xA1
  const CHARGEPUMP: Byte := 0x8D

  // Scrolling opcodes.
  const ACTIVATE_SCROLL: Byte := 0x2F
  const DEACTIVATE_SCROLL: Byte := 0x2E
  const SET_VERTICAL_SCROLL_AREA: Byte := 0xA3
  const RIGHT_HORIZONTAL_SCROLL: Byte := 0x26
  const LEFT_HORIZONTAL_SCROLL: Byte := 0x27
  const VERTICAL_AND_RIGHT_HORIZONTAL_SCROLL: Byte := 0x29
  const VERTICAL_AND_LEFT_HORIZONTAL_SCROLL: Byte := 0x2A

  // Default arguments of begin().
  const DEFAULT_VCCSTATE: Byte := SWITCHCAPVCC
  const DEFAULT_I2C_ADDRESS: Byte := I2C_ADDRESS
  const DEFAULT_RESET: bool := true

  /** The per-model record: panel size and the controller tuning bytes.
      The C++ record also carries the pointer to the model's static buffer;
      here the buffer is handed to the display object separately. */
  datatype Personality = Personality(
    w: U8,
    h: U8,
    compins: Byte,
    contrastExtVcc: Byte,
    contrast: Byte)

  /** Both dimensions positive and the height a whole number of 8-row bands. */
  predicate WellFormed(p: Personality)
  {
    0 < p.w && 0 < p.h && p.h % 8 == 0
  }

  /** w * h / 8 for byte-sized w and h fits in 16 bits, and is w bytes per band when h is
      a whole number of bands. */
  lemma BandProduct(w: int, h: int)
    requires 0 <= w < 0x100 && 0 <= h < 0x100
    ensures 0 <= w * h / 8 < 0x1_0000
    ensures h % 8 == 0 ==> w * h / 8 == w * (h / 8)
  {
    assert 0 <= w * h <= w * 0xFF <= 0xFF * 0xFF;
    if h % 8 == 0 {
      var q := h / 8;
      assert w * h == 8 * (w * q);
    }
  }

  /** bufsize(): one byte per column in every 8-row band. */
  function BufSize(p: Personality): (n: nat)
    ensures p.h % 8 == 0 ==> n == p.w * (p.h / 8)
    ensures n < 0x1_0000
  {
    BandProduct(p.w, p.h);
    p.w * p.h / 8
  }

  function Personality96x16(): (p: Personality)
    ensures WellFormed(p)
    ensures BufSize(p) == 192 && BufSize(p) % 16 == 0
  {
    Personality(96, 16, 0x02, 0x10, 0xAF)
  }

  function Personality128x32(): (p: Personality)
    ensures WellFormed(p)
    ensures BufSize(p) == 512 && BufSize(p) % 16 == 0
  {
    Personality(128, 32, 0x02, 0x8F, 0x8F)
  }

  function Personality128x64(): (p: Personality)
    ensures WellFormed(p)
    ensures BufSize(p) == 1024 && BufSize(p) % 16 == 0
  {
    Personality(128, 64, 0x12, 0x9F, 0xCF)
  }

  /** The default device alias names the 128x32 model. */
  function DefaultPersonality(): (p: Personality)
    ensures p.w == 128 && p.h == 32 && BufSize(p) == 512
  {
    Personality128x32()
  }

  /** A value that fits in a byte survives the trip through one: the conversion keeps the
      value modulo 256, which is the value itself. */
  lemma ByteValue(n: int)
    requires 0 <= n < 0x100
    ensures (n as Byte) as int == n
  {
    assert n % 0x100 == n;
  }

  /** The three colours are told apart by the drawing switch, and so are the two supply modes. */
  lemma ColoursAndSupplyModesDistinct()
    ensures BLACK != WHITE && WHITE != INVERSE && BLACK != INVERSE
    ensures EXTERNALVCC != SWITCHCAPVCC
  {
  }

  /** The opcodes begin() and display() build by or-ing in an argument. */
  lemma ComposedOpcodes()
    ensures SETSTARTLINE | 0x00 == STARTLINE_ZERO
    ensures SEGREMAP | 0x01 == SEGREMAP_COL127
    ensures COLUMNADDR == 0x21 && PAGEADDR == 0x22
  {
  }
}
