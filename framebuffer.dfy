/** The packed 1-bit framebuffer of the SSD1306 driver (Adafruit_SSD1306.cpp): pixel
    addressing, the rotation table, the byte-level effect of drawPixel and of the two
    fast-line routines, and the proofs that a fast line paints exactly the pixels that
    drawing them one at a time paints. The in-place methods that these functions specify
    live in module Display. */
module FrameBuffer {
  import opened Profiles

  // ---------------------------------------------------------------------------
  // Bits of a byte

  /** The byte with only bit k set (bit 0 is the least significant). */
  function Bit(k: int): (m: Byte)
    requires 0 <= k < 8
    ensures m != 0
  {
    (1 as Byte) << k
  }

  /** Bit(k) is one of the eight one-hot bytes. */
  lemma OneHot(k: int)
    requires 0 <= k < 8
    ensures var m := Bit(k); m == 1 || m == 2 || m == 4 || m == 8 || m == 16 || m == 32 || m == 64 || m == 128
  {
  }

  lemma BitDistinct(j: int, k: int)
    requires 0 <= j < 8 && 0 <= k < 8
    ensures (Bit(j) & Bit(k) != 0) == (j == k)
  {
  }

  /** A byte is determined by its eight bits. */
  lemma BitsDetermine(u: Byte, v: Byte)
    requires forall k | 0 <= k < 8 :: (u & Bit(k) != 0) == (v & Bit(k) != 0)
    ensures u == v
  {
    assert (u & Bit(0) != 0) == (v & Bit(0) != 0);
    assert (u & Bit(1) != 0) == (v & Bit(1) != 0);
    assert (u & Bit(2) != 0) == (v & Bit(2) != 0);
    assert (u & Bit(3) != 0) == (v & Bit(3) != 0);
    assert (u & Bit(4) != 0) == (v & Bit(4) != 0);
    assert (u & Bit(5) != 0) == (v & Bit(5) != 0);
    assert (u & Bit(6) != 0) == (v & Bit(6) != 0);
    assert (u & Bit(7) != 0) == (v & Bit(7) != 0);
  }

  /** The byte whose bits lo .. hi-1 are set and no other. */
  function RangeMask(lo: int, hi: int): Byte
    requires 0 <= lo <= 8 && 0 <= hi <= 8
    decreases hi - lo
  {
    if lo >= hi then 0 else Bit(lo) | RangeMask(lo + 1, hi)
  }

  lemma {:induction false} RangeMaskBit(lo: int, hi: int, k: int)
    requires 0 <= lo <= 8 && 0 <= hi <= 8 && 0 <= k < 8
    ensures (RangeMask(lo, hi) & Bit(k) != 0) == (lo <= k < hi)
    decreases hi - lo
  {
    if lo < hi {
      RangeMaskBit(lo + 1, hi, k);
      BitDistinct(lo, k);
    }
  }

  /** Only the full range gives the all-ones byte. */
  lemma RangeMaskFull(lo: int, hi: int)
    requires 0 <= lo <= 8 && 0 <= hi <= 8
    ensures RangeMask(lo, hi) == 0xFF <==> lo == 0 && hi == 8
  {
    RangeMaskBit(lo, hi, 0);
    RangeMaskBit(lo, hi, 7);
    if lo == 0 && hi == 8 {
      forall k | 0 <= k < 8 ensures (RangeMask(lo, hi) & Bit(k) != 0) == (0xFF & Bit(k) != 0) {
        RangeMaskBit(lo, hi, k);
      }
      BitsDetermine(RangeMask(lo, hi), 0xFF);
    }
  }

  /** An empty range gives the zero byte. */
  lemma RangeMaskEmpty(lo: int, hi: int)
    requires 0 <= lo <= 8 && 0 <= hi <= 8 && hi <= lo
    ensures RangeMask(lo, hi) == 0
  {
  }

  /** A bit of a conjunction of bytes is the conjunction of their bits. */
  lemma AndBit(u: Byte, v: Byte, k: int)
    requires 0 <= k < 8
    ensures (u & v & Bit(k) != 0) == (u & Bit(k) != 0 && v & Bit(k) != 0)
  {
    OneHot(k);
  }

  /** The set bits of u are exactly bits lo .. hi - 1. */
  predicate BitsAre(u: Byte, lo: int, hi: int)
  {
    forall k | 0 <= k < 8 :: (u & Bit(k) != 0) == (lo <= k < hi)
  }

  /** RangeMaskBit for all bits at once. */
  lemma RangeMaskBits(lo: int, hi: int)
    requires 0 <= lo <= 8 && 0 <= hi <= 8
    ensures BitsAre(RangeMask(lo, hi), lo, hi)
  {
    forall k | 0 <= k < 8 ensures (RangeMask(lo, hi) & Bit(k) != 0) == (lo <= k < hi) {
      RangeMaskBit(lo, hi, k);
    }
  }

  /** Bytes whose bits are two ranges meet in the byte whose bits are the common range. */
  lemma MeetOfRanges(u: Byte, v: Byte, m: Byte, a: int, b: int, c: int, d: int)
    requires BitsAre(u, a, b) && BitsAre(v, c, d) && BitsAre(m, Max(a, c), Min(b, d))
    ensures u & v == m
  {
    forall k | 0 <= k < 8 ensures (u & v & Bit(k) != 0) == (m & Bit(k) != 0) {
      AndBit(u, v, k);
    }
    BitsDetermine(u & v, m);
  }

  /** Intersecting two ranges of bits. */
  lemma RangeMaskMeet(a: int, b: int, c: int, d: int)
    requires 0 <= a <= 8 && 0 <= b <= 8 && 0 <= c <= 8 && 0 <= d <= 8
    ensures RangeMask(a, b) & RangeMask(c, d) == RangeMask(Max(a, c), Min(b, d))
  {
    RangeMaskBits(a, b);
    RangeMaskBits(c, d);
    RangeMaskBits(Max(a, c), Min(b, d));
    MeetOfRanges(RangeMask(a, b), RangeMask(c, d), RangeMask(Max(a, c), Min(b, d)), a, b, c, d);
  }

  // The two lookup tables of the vertical fast line (Adafruit_SSD1306.cpp:513, 572).
  const PREMASK: seq<Byte> := [0x00, 0x80, 0xC0, 0xE0, 0xF0, 0xF8, 0xFC, 0xFE]
  const POSTMASK: seq<Byte> := [0x00, 0x01, 0x03, 0x07, 0x0F, 0x1F, 0x3F, 0x7F]

  /** premask[m] is the m high bits of a byte. */
  lemma PremaskIsHighBits(m: int)
    requires 0 <= m < 8
    ensures PREMASK[m] == RangeMask(8 - m, 8)
  {
    if m == 0 {
      assert RangeMask(8, 8) == 0x00;
    } else if m == 1 {
      assert RangeMask(7, 8) == 0x80;
    } else if m == 2 {
      assert RangeMask(6, 8) == 0xC0;
    } else if m == 3 {
      assert RangeMask(5, 8) == 0xE0;
    } else if m == 4 {
      assert RangeMask(4, 8) == 0xF0;
    } else if m == 5 {
      assert RangeMask(3, 8) == 0xF8;
    } else if m == 6 {
      assert RangeMask(2, 8) == 0xFC;
    } else {
      assert RangeMask(1, 8) == 0xFE;
    }
  }

  /** postmask[m] is the m low bits of a byte. */
  lemma PostmaskIsLowBits(m: int)
    requires 0 <= m < 8
    ensures POSTMASK[m] == RangeMask(0, m)
  {
    if m == 0 {
      assert RangeMask(0, 0) == 0x00;
    } else if m == 1 {
      assert RangeMask(0, 1) == 0x01;
    } else if m == 2 {
      assert RangeMask(0, 2) == 0x03;
    } else if m == 3 {
      assert RangeMask(0, 3) == 0x07;
    } else if m == 4 {
      assert RangeMask(0, 4) == 0x0F;
    } else if m == 5 {
      assert RangeMask(0, 5) == 0x1F;
    } else if m == 6 {
      assert RangeMask(0, 6) == 0x3F;
    } else {
      assert RangeMask(0, 7) == 0x7F;
    }
  }

  /** 0xFF >> n keeps the 8 - n low bits. */
  lemma ShiftedOnesAreLowBits(n: int)
    requires 0 <= n <= 8
    ensures (0xFF as Byte) >> n == RangeMask(0, 8 - n)
  {
    forall k | 0 <= k < 8 ensures (((0xFF as Byte) >> n) & Bit(k) != 0) == (RangeMask(0, 8 - n) & Bit(k) != 0) {
      RangeMaskBit(0, 8 - n, k);
    }
    BitsDetermine((0xFF as Byte) >> n, RangeMask(0, 8 - n));
  }

  // ---------------------------------------------------------------------------
  // Colours

  /** The colour switch applied to a byte through a mask; a colour value other than
      BLACK, WHITE and INVERSE matches no case and changes nothing. */
  function Paint(b: Byte, mask: Byte, color: int): Byte
  {
    if color == WHITE then b | mask
    else if color == BLACK then b & !mask
    else if color == INVERSE then b ^ mask
    else b
  }

  /** What a colour does to one pixel that is currently lit or not. */
  function Shade(lit: bool, color: int): bool
  {
    if color == WHITE then true
    else if color == BLACK then false
    else if color == INVERSE then !lit
    else lit
  }

  /** Painting through a mask shades the masked bits and keeps the others. */
  lemma PaintBit(b: Byte, mask: Byte, color: int, k: int)
    requires 0 <= k < 8
    ensures (Paint(b, mask, color) & Bit(k) != 0)
         == if mask & Bit(k) != 0 then Shade(b & Bit(k) != 0, color) else b & Bit(k) != 0
  {
    OneHot(k);
  }

  /** A whole byte of the vertical run as written: INVERSE complements it, WHITE
      writes 0xFF and every other colour value writes 0x00; a partial byte is painted. */
  function VByte(b: Byte, mask: Byte, color: int): Byte
  {
    if mask == 0xFF then
      (if color == INVERSE then !b else if color == WHITE then 0xFF else 0x00)
    else Paint(b, mask, color)
  }

  predicate DefinedColour(color: int)
  {
    color == BLACK || color == WHITE || color == INVERSE
  }

  /** For the three defined colours the whole-byte shortcut is the same as painting. */
  lemma VByteIsPaint(b: Byte, mask: Byte, color: int)
    requires DefinedColour(color)
    ensures VByte(b, mask, color) == Paint(b, mask, color)
  {
  }

  // ---------------------------------------------------------------------------
  // Geometry: pixel (x, y) is bit y % 8 of byte x + (y / 8) * W

  /** A panel of W columns and H rows (both uint8_t), H a whole number of bands. */
  predicate Geometry(W: int, H: int)
  {
    0 < W < 0x100 && 0 < H < 0x100 && H % 8 == 0
  }

  predicate Sized(buf: seq<Byte>, W: int, H: int)
  {
    Geometry(W, H) && |buf| == W * (H / 8)
  }

  function ByteIndex(W: int, x: int, y: int): int
  {
    x + (y / 8) * W
  }

  lemma MulLe(a: int, b: int, W: int)
    requires a <= b && 0 <= W
    ensures a * W <= b * W
  {
  }

  /** Division by W recovers band and column of x + b * W. */
  lemma DivModUnique(x: int, b: int, W: int)
    requires 0 <= x < W && 0 <= b
    ensures (x + b * W) / W == b && (x + b * W) % W == x
  {
    var i := x + b * W;
    var q, r := i / W, i % W;
    assert W * q + r == i;
    assert W * (q - b) == x - r;
    if q - b >= 1 {
      MulLe(1, q - b, W);
    } else if q - b <= -1 {
      MulLe(1, b - q, W);
    }
  }

  /** An index below W * n lies in one of the first n bands. */
  lemma BandBelow(i: int, W: int, n: int)
    requires 0 < W && 0 <= i < W * n
    ensures 0 <= i / W < n
  {
    if i / W >= n {
      MulLe(n, i / W, W);
    }
  }

  /** Every pixel has one byte inside the buffer, and the byte tells column and band back. */
  lemma PixelIndexInside(W: int, H: int, x: int, y: int)
    requires Geometry(W, H) && 0 <= x < W && 0 <= y < H
    ensures 0 <= ByteIndex(W, x, y) < W * (H / 8)
    ensures ByteIndex(W, x, y) % W == x && ByteIndex(W, x, y) / W == y / 8
  {
    DivModUnique(x, y / 8, W);
    MulLe(y / 8, H / 8 - 1, W);
  }

  /** Two pixels share a byte exactly when they share column and band. */
  lemma SameByte(W: int, H: int, x: int, y: int, x': int, y': int)
    requires Geometry(W, H) && 0 <= x < W && 0 <= y < H && 0 <= x' < W && 0 <= y' < H
    ensures ByteIndex(W, x, y) == ByteIndex(W, x', y') <==> x == x' && y / 8 == y' / 8
  {
    PixelIndexInside(W, H, x, y);
    PixelIndexInside(W, H, x', y');
  }

  /** Whether pixel (x, y) is lit in the buffer. */
  predicate Lit(buf: seq<Byte>, W: int, H: int, x: int, y: int)
    requires Sized(buf, W, H) && 0 <= x < W && 0 <= y < H
  {
    PixelIndexInside(W, H, x, y);
    buf[ByteIndex(W, x, y)] & Bit(y % 8) != 0
  }

  /** Two buffers of one geometry with the same pixels are the same bytes. */
  lemma SamePixelsSameBuffer(a: seq<Byte>, b: seq<Byte>, W: int, H: int)
    requires Sized(a, W, H) && Sized(b, W, H)
    requires forall x, y | 0 <= x < W && 0 <= y < H :: Lit(a, W, H, x, y) == Lit(b, W, H, x, y)
    ensures a == b
  {
    forall i | 0 <= i < |a| ensures a[i] == b[i] {
      SameByteBits(a, b, W, H, i);
    }
  }

  /** Byte i holds the eight pixels of its column and band. */
  lemma PixelOfByte(W: int, H: int, i: int, k: int)
    requires Geometry(W, H) && 0 <= i < W * (H / 8) && 0 <= k < 8
    ensures var x, y := i % W, 8 * (i / W) + k;
      0 <= x < W && 0 <= y < H && ByteIndex(W, x, y) == i && y % 8 == k
  {
    BandBelow(i, W, H / 8);
    var band := i / W;
    var y := 8 * band + k;
    assert y / 8 == band && y % 8 == k;
  }

  lemma SameByteBits(a: seq<Byte>, b: seq<Byte>, W: int, H: int, i: int)
    requires Sized(a, W, H) && Sized(b, W, H) && 0 <= i < |a|
    requires forall x, y | 0 <= x < W && 0 <= y < H :: Lit(a, W, H, x, y) == Lit(b, W, H, x, y)
    ensures a[i] == b[i]
  {
    forall k | 0 <= k < 8 ensures (a[i] & Bit(k) != 0) == (b[i] & Bit(k) != 0) {
      PixelOfByte(W, H, i, k);
      assert Lit(a, W, H, i % W, 8 * (i / W) + k) == Lit(b, W, H, i % W, 8 * (i / W) + k);
    }
    BitsDetermine(a[i], b[i]);
  }

  // ---------------------------------------------------------------------------
  // Rotation (the graphics library's rotation state, 0 .. 3)

  type Rotation = r: int | 0 <= r < 4

  /** width() and height() of the graphics library: swapped for rotations 1 and 3. */
  function LogicalWidth(W: int, H: int, rot: Rotation): int
  {
    if rot % 2 == 1 then H else W
  }

  function LogicalHeight(W: int, H: int, rot: Rotation): int
  {
    if rot % 2 == 1 then W else H
  }

  predicate InLogicalBounds(W: int, H: int, rot: Rotation, x: int, y: int)
  {
    0 <= x < LogicalWidth(W, H, rot) && 0 <= y < LogicalHeight(W, H, rot)
  }

  /** drawPixel's table: from logical to physical coordinates. */
  function Rotate(W: int, H: int, rot: Rotation, x: int, y: int): (int, int)
  {
    if rot == 1 then (W - y - 1, x)
    else if rot == 2 then (W - x - 1, H - y - 1)
    else if rot == 3 then (y, H - x - 1)
    else (x, y)
  }

  /** From physical back to logical coordinates. */
  function Unrotate(W: int, H: int, rot: Rotation, px: int, py: int): (int, int)
  {
    if rot == 1 then (py, W - px - 1)
    else if rot == 2 then (W - px - 1, H - py - 1)
    else if rot == 3 then (H - py - 1, px)
    else (px, py)
  }

  lemma RotateRoundTrip(W: int, H: int, rot: Rotation, x: int, y: int)
    requires InLogicalBounds(W, H, rot, x, y)
    ensures 0 <= Rotate(W, H, rot, x, y).0 < W && 0 <= Rotate(W, H, rot, x, y).1 < H
    ensures Unrotate(W, H, rot, Rotate(W, H, rot, x, y).0, Rotate(W, H, rot, x, y).1) == (x, y)
  {
  }

  lemma UnrotateRoundTrip(W: int, H: int, rot: Rotation, px: int, py: int)
    requires 0 <= px < W && 0 <= py < H
    ensures InLogicalBounds(W, H, rot, Unrotate(W, H, rot, px, py).0, Unrotate(W, H, rot, px, py).1)
    ensures Rotate(W, H, rot, Unrotate(W, H, rot, px, py).0, Unrotate(W, H, rot, px, py).1) == (px, py)
  {
  }

  // ---------------------------------------------------------------------------
  // What a drawing operation does, pixel by pixel

  predicate InRect(p: (int, int), x0: int, x1: int, y0: int, y1: int)
  {
    x0 <= p.0 < x1 && y0 <= p.1 < y1
  }

  /** `after` is `before` with the colour applied to every pixel whose logical
      coordinates under rotation `rot` lie in [x0, x1) x [y0, y1), and no other pixel changed. */
  ghost predicate Painted(before: seq<Byte>, after: seq<Byte>, W: int, H: int, rot: Rotation,
                          x0: int, x1: int, y0: int, y1: int, color: int)
    requires Sized(before, W, H)
  {
    Sized(after, W, H) &&
    forall px, py | 0 <= px < W && 0 <= py < H ::
      Lit(after, W, H, px, py) ==
        if InRect(Unrotate(W, H, rot, px, py), x0, x1, y0, y1)
        then Shade(Lit(before, W, H, px, py), color)
        else Lit(before, W, H, px, py)
  }

  /** A painting is determined by its start buffer, its rectangle and its colour. */
  lemma PaintedUnique(before: seq<Byte>, a: seq<Byte>, b: seq<Byte>, W: int, H: int, rot: Rotation,
                      x0: int, x1: int, y0: int, y1: int, color: int)
    requires Sized(before, W, H)
    requires Painted(before, a, W, H, rot, x0, x1, y0, y1, color)
    requires Painted(before, b, W, H, rot, x0, x1, y0, y1, color)
    ensures a == b
  {
    SamePixelsSameBuffer(a, b, W, H);
  }

  /** Painting two side-by-side rectangles one after the other paints their union. */
  lemma PaintedJoinX(a: seq<Byte>, b: seq<Byte>, c: seq<Byte>, W: int, H: int, rot: Rotation,
                     x0: int, x1: int, x2: int, y0: int, y1: int, color: int)
    requires Sized(a, W, H) && x0 <= x1 <= x2
    requires Painted(a, b, W, H, rot, x0, x1, y0, y1, color)
    requires Painted(b, c, W, H, rot, x1, x2, y0, y1, color)
    ensures Painted(a, c, W, H, rot, x0, x2, y0, y1, color)
  {
  }

  lemma PaintedJoinY(a: seq<Byte>, b: seq<Byte>, c: seq<Byte>, W: int, H: int, rot: Rotation,
                     x0: int, x1: int, y0: int, y1: int, y2: int, color: int)
    requires Sized(a, W, H) && y0 <= y1 <= y2
    requires Painted(a, b, W, H, rot, x0, x1, y0, y1, color)
    requires Painted(b, c, W, H, rot, x0, x1, y1, y2, color)
    ensures Painted(a, c, W, H, rot, x0, x1, y0, y2, color)
  {
  }

  /** The same painting seen through another rotation and rectangle that select the same pixels. */
  lemma PaintedReframe(before: seq<Byte>, after: seq<Byte>, W: int, H: int,
                       rot: Rotation, x0: int, x1: int, y0: int, y1: int,
                       rot': Rotation, x0': int, x1': int, y0': int, y1': int, color: int)
    requires Sized(before, W, H)
    requires Painted(before, after, W, H, rot, x0, x1, y0, y1, color)
    requires forall px, py | 0 <= px < W && 0 <= py < H ::
      InRect(Unrotate(W, H, rot, px, py), x0, x1, y0, y1)
        == InRect(Unrotate(W, H, rot', px, py), x0', x1', y0', y1')
    ensures Painted(before, after, W, H, rot', x0', x1', y0', y1', color)
  {
  }

  // ---------------------------------------------------------------------------
  // drawPixel

  /** The buffer after drawPixel(x, y, color) under rotation `rot`. */
  function DrawPixelSpec(buf: seq<Byte>, W: int, H: int, rot: Rotation, x: int, y: int, color: int)
    : (r: seq<Byte>)
    requires Sized(buf, W, H)
    ensures Sized(r, W, H)
  {
    if !InLogicalBounds(W, H, rot, x, y) then buf
    else
      var p := Rotate(W, H, rot, x, y);
      RotateRoundTrip(W, H, rot, x, y);
      PixelIndexInside(W, H, p.0, p.1);
      var i := ByteIndex(W, p.0, p.1);
      buf[i := Paint(buf[i], Bit(p.1 % 8), color)]
  }

  /** drawPixel paints exactly the one pixel (x, y) (none when it is out of bounds). */
  lemma DrawPixelPaints(buf: seq<Byte>, W: int, H: int, rot: Rotation, x: int, y: int, color: int)
    requires Sized(buf, W, H)
    ensures Painted(buf, DrawPixelSpec(buf, W, H, rot, x, y, color), W, H, rot, x, x + 1, y, y + 1, color)
    ensures !InLogicalBounds(W, H, rot, x, y) ==> DrawPixelSpec(buf, W, H, rot, x, y, color) == buf
  {
    var r := DrawPixelSpec(buf, W, H, rot, x, y, color);
    forall px, py | 0 <= px < W && 0 <= py < H
      ensures Lit(r, W, H, px, py) ==
        if InRect(Unrotate(W, H, rot, px, py), x, x + 1, y, y + 1)
        then Shade(Lit(buf, W, H, px, py), color)
        else Lit(buf, W, H, px, py)
    {
      UnrotateRoundTrip(W, H, rot, px, py);
      PixelIndexInside(W, H, px, py);
      if InLogicalBounds(W, H, rot, x, y) {
        var q := Rotate(W, H, rot, x, y);
        RotateRoundTrip(W, H, rot, x, y);
        SameByte(W, H, px, py, q.0, q.1);
        var i := ByteIndex(W, q.0, q.1);
        if ByteIndex(W, px, py) == i {
          PaintBit(buf[i], Bit(q.1 % 8), color, py % 8);
          BitDistinct(q.1 % 8, py % 8);
          assert (px, py) == q <==> py % 8 == q.1 % 8;
        }
      }
    }
  }

  /** Drawing the same pixel WHITE twice is drawing it once; likewise BLACK. */
  lemma DrawPixelIdempotent(buf: seq<Byte>, W: int, H: int, rot: Rotation, x: int, y: int, color: int)
    requires Sized(buf, W, H)
    requires color == WHITE || color == BLACK
    ensures DrawPixelSpec(DrawPixelSpec(buf, W, H, rot, x, y, color), W, H, rot, x, y, color)
         == DrawPixelSpec(buf, W, H, rot, x, y, color)
  {
  }

  /** Drawing the same pixel INVERSE twice restores the buffer. */
  lemma DrawPixelInverseTwice(buf: seq<Byte>, W: int, H: int, rot: Rotation, x: int, y: int)
    requires Sized(buf, W, H)
    ensures DrawPixelSpec(DrawPixelSpec(buf, W, H, rot, x, y, INVERSE), W, H, rot, x, y, INVERSE) == buf
  {
  }

  /** A colour value outside the switch leaves the buffer as it was. */
  lemma DrawPixelUndefinedColour(buf: seq<Byte>, W: int, H: int, rot: Rotation, x: int, y: int, color: int)
    requires Sized(buf, W, H)
    requires !DefinedColour(color)
    ensures DrawPixelSpec(buf, W, H, rot, x, y, color) == buf
  {
  }

  /** Drawing then reading back through the same rotation gives the colour's effect (read-back of
      a WHITE pixel is lit, of a BLACK one is dark). */
  lemma DrawPixelReadBack(buf: seq<Byte>, W: int, H: int, rot: Rotation, x: int, y: int, color: int,
                          px: int, py: int)
    requires Sized(buf, W, H) && InLogicalBounds(W, H, rot, x, y)
    requires (px, py) == Rotate(W, H, rot, x, y) && 0 <= px < W && 0 <= py < H
    ensures Lit(DrawPixelSpec(buf, W, H, rot, x, y, color), W, H, px, py) == Shade(Lit(buf, W, H, px, py), color)
  {
    DrawPixelPaints(buf, W, H, rot, x, y, color);
    RotateRoundTrip(W, H, rot, x, y);
  }

  // ---------------------------------------------------------------------------
  // The reference: a run drawn one pixel at a time along the logical axis

  /** w successive drawPixel calls at (x, y), (x + 1, y), ... */
  function HPixels(buf: seq<Byte>, W: int, H: int, rot: Rotation, x: int, y: int, w: int, color: int)
    : (r: seq<Byte>)
    requires Sized(buf, W, H)
    ensures Sized(r, W, H)
    decreases w
  {
    if w <= 0 then buf
    else HPixels(DrawPixelSpec(buf, W, H, rot, x, y, color), W, H, rot, x + 1, y, w - 1, color)
  }

  /** h successive drawPixel calls at (x, y), (x, y + 1), ... */
  function VPixels(buf: seq<Byte>, W: int, H: int, rot: Rotation, x: int, y: int, h: int, color: int)
    : (r: seq<Byte>)
    requires Sized(buf, W, H)
    ensures Sized(r, W, H)
    decreases h
  {
    if h <= 0 then buf
    else VPixels(DrawPixelSpec(buf, W, H, rot, x, y, color), W, H, rot, x, y + 1, h - 1, color)
  }

  lemma {:induction false} HPixelsPaints(buf: seq<Byte>, W: int, H: int, rot: Rotation,
                                         x: int, y: int, w: int, color: int)
    requires Sized(buf, W, H)
    ensures Painted(buf, HPixels(buf, W, H, rot, x, y, w, color), W, H, rot, x, x + w, y, y + 1, color)
    decreases w
  {
    if w > 0 {
      var mid := DrawPixelSpec(buf, W, H, rot, x, y, color);
      DrawPixelPaints(buf, W, H, rot, x, y, color);
      HPixelsPaints(mid, W, H, rot, x + 1, y, w - 1, color);
      PaintedJoinX(buf, mid, HPixels(buf, W, H, rot, x, y, w, color), W, H, rot, x, x + 1, x + w, y, y + 1, color);
    }
  }

  lemma {:induction false} VPixelsPaints(buf: seq<Byte>, W: int, H: int, rot: Rotation,
                                         x: int, y: int, h: int, color: int)
    requires Sized(buf, W, H)
    ensures Painted(buf, VPixels(buf, W, H, rot, x, y, h, color), W, H, rot, x, x + 1, y, y + h, color)
    decreases h
  {
    if h > 0 {
      var mid := DrawPixelSpec(buf, W, H, rot, x, y, color);
      DrawPixelPaints(buf, W, H, rot, x, y, color);
      VPixelsPaints(mid, W, H, rot, x, y + 1, h - 1, color);
      PaintedJoinY(buf, mid, VPixels(buf, W, H, rot, x, y, h, color), W, H, rot, x, x + 1, y, y + 1, y + h, color);
    }
  }

  // ---------------------------------------------------------------------------
  // Clipping shared by both internal line routines

  function Max(a: int, b: int): int { if a < b then b else a }
  function Min(a: int, b: int): int { if a < b then a else b }

  /** The start and the length left after clipping a run to [0, limit): a negative start
      shortens the run (the sum is stored back into an int16_t), a run past the far edge
      is cut at the edge. */
  function ClipRun(start: Int16, len: Int16, limit: int): (r: (int, int))
    requires 0 < limit < 0x100
    ensures r.1 > 0 ==> 0 <= r.0 && r.0 + r.1 <= limit
  {
    var s := if start < 0 then 0 else start as int;
    var n := if start < 0 then Wrap16(len + start) as int else len as int;
    if s + n > limit then (s, limit - s) else (s, n)
  }

  /** Without int16 overflow, the clipped run is the intersection of [start, start + len)
      with [0, limit). */
  lemma ClipRunIsIntersection(start: Int16, len: Int16, limit: int)
    requires 0 < limit < 0x100 && -0x8000 <= start + len
    ensures ClipRun(start, len, limit).1 > 0 <==> Max(start, 0) < Min(start + len, limit)
    ensures ClipRun(start, len, limit).1 > 0 ==>
      ClipRun(start, len, limit).0 == Max(start, 0) &&
      ClipRun(start, len, limit).0 + ClipRun(start, len, limit).1 == Min(start + len, limit)
  {
    ClipRunAgrees(start, len, limit);
  }

  /** The clip as evidently intended: the off-panel part is taken off the length in
      unbounded arithmetic, so a run ending before the panel's edge stays empty. */
  function ClipRunExact(start: int, len: int, limit: int): (r: (int, int))
    requires 0 < limit
    ensures r.1 > 0 <==> Max(start, 0) < Min(start + len, limit)
    ensures r.1 > 0 ==> r.0 == Max(start, 0) && r.0 + r.1 == Min(start + len, limit)
  {
    var s := Max(start, 0);
    var n := if start < 0 then len + start else len;
    if s + n > limit then (s, limit - s) else (s, n)
  }

  /** The routines' clip differs from the intended one only when start + len leaves int16. */
  lemma ClipRunAgrees(start: Int16, len: Int16, limit: int)
    requires 0 < limit < 0x100 && -0x8000 <= start + len
    ensures ClipRun(start, len, limit) == ClipRunExact(start, len, limit)
  {
  }

  // ---------------------------------------------------------------------------
  // drawFastHLineInternal

  /** Row y's bit set, cleared or flipped in bytes x0 .. x1-1 of the band holding y. */
  function HLineBytes(buf: seq<Byte>, W: int, y: int, x0: int, x1: int, color: int): (r: seq<Byte>)
    requires 0 <= y
    ensures |r| == |buf|
  {
    seq(|buf|, i requires 0 <= i < |buf| =>
      if (y / 8) * W + x0 <= i < (y / 8) * W + x1 then Paint(buf[i], Bit(y % 8), color) else buf[i])
  }

  /** The buffer after drawFastHLineInternal(x, y, w, color) (physical coordinates). */
  function HLineSpec(buf: seq<Byte>, W: int, H: int, x: Int16, y: Int16, w: Int16, color: int)
    : (r: seq<Byte>)
    requires Sized(buf, W, H)
    ensures Sized(r, W, H)
  {
    if y < 0 || y >= H then buf
    else
      var run := ClipRun(x, w, W);
      if run.1 <= 0 then buf else HLineBytes(buf, W, y, run.0, run.0 + run.1, color)
  }

  /** A byte index lies in bytes x0 .. x1-1 of band B exactly when it is one of those columns of band B. */
  lemma InBandRange(W: int, px: int, b: int, band: int, x0: int, x1: int)
    requires 0 <= px < W && 0 <= b && 0 <= band && 0 <= x0 <= x1 <= W
    ensures band * W + x0 <= px + b * W < band * W + x1 <==> b == band && x0 <= px < x1
  {
    if b > band {
      MulLe(band + 1, b, W);
    } else if b < band {
      MulLe(b + 1, band, W);
    }
  }

  /** drawFastHLineInternal as evidently intended: the run clipped without int16 wrap-around. */
  function HLineExactSpec(buf: seq<Byte>, W: int, H: int, x: Int16, y: Int16, w: Int16, color: int)
    : (r: seq<Byte>)
    requires Sized(buf, W, H)
    ensures Sized(r, W, H)
  {
    if y < 0 || y >= H then buf
    else
      var run := ClipRunExact(x, w, W);
      if run.1 <= 0 then buf else HLineBytes(buf, W, y, run.0, run.0 + run.1, color)
  }

  /** Whenever x + w fits in an int16_t, the routine is the intended one. */
  lemma HLineAgrees(buf: seq<Byte>, W: int, H: int, x: Int16, y: Int16, w: Int16, color: int)
    requires Sized(buf, W, H)
    requires -0x8000 <= x + w
    ensures HLineSpec(buf, W, H, x, y, w, color) == HLineExactSpec(buf, W, H, x, y, w, color)
  {
    ClipRunAgrees(x, w, W);
  }

  /** The intended routine paints the pixels (x .. x+w-1, y) that lie on the panel, for every run. */
  lemma HLineExactPaints(buf: seq<Byte>, W: int, H: int, x: Int16, y: Int16, w: Int16, color: int)
    requires Sized(buf, W, H)
    ensures Painted(buf, HLineExactSpec(buf, W, H, x, y, w, color), W, H, 0, x, x + w, y, y + 1, color)
  {
    var r := HLineExactSpec(buf, W, H, x, y, w, color);
    if 0 <= y < H {
      var run := ClipRunExact(x, w, W);
      if run.1 > 0 {
        forall px, py | 0 <= px < W && 0 <= py < H
          ensures Lit(r, W, H, px, py) ==
            if InRect((px, py), x, x + w, y, y + 1) then Shade(Lit(buf, W, H, px, py), color)
            else Lit(buf, W, H, px, py)
        {
          PixelIndexInside(W, H, px, py);
          var i := ByteIndex(W, px, py);
          InBandRange(W, px, py / 8, y / 8, run.0, run.0 + run.1);
          if (y / 8) * W + run.0 <= i < (y / 8) * W + run.0 + run.1 {
            PaintBit(buf[i], Bit(y % 8), color, py % 8);
            BitDistinct(y % 8, py % 8);
          }
        }
      }
    }
  }

  /** drawFastHLineInternal paints the pixels (x .. x+w-1, y) that lie on the panel. */
  lemma HLinePaints(buf: seq<Byte>, W: int, H: int, x: Int16, y: Int16, w: Int16, color: int)
    requires Sized(buf, W, H)
    requires -0x8000 <= x + w
    ensures Painted(buf, HLineSpec(buf, W, H, x, y, w, color), W, H, 0, x, x + w, y, y + 1, color)
  {
    HLineAgrees(buf, W, H, x, y, w, color);
    HLineExactPaints(buf, W, H, x, y, w, color);
  }

  /** As written, a negative width whose sum with a negative x leaves int16 wraps to a long
      run: drawFastHLine(-32768, 0, -1, WHITE) lights all of row 0, where drawing the
      same run one pixel at a time draws nothing. */
  lemma HLineWrapLightsRow()
    ensures FastHLineSpec(seq(16, _ => 0x00), 16, 8, 0, -0x8000, 0, -1, WHITE) == seq(16, _ => 0x01)
    ensures HPixels(seq(16, _ => 0x00), 16, 8, 0, -0x8000, 0, -1, WHITE) == seq(16, _ => 0x00)
    ensures HLineExactSpec(seq(16, _ => 0x00), 16, 8, -0x8000, 0, -1, WHITE) == seq(16, _ => 0x00)
  {
    var blank: seq<Byte> := seq(16, _ => 0x00);
    assert ClipRun(-0x8000, -1, 16) == (0, 16);
    var r := HLineBytes(blank, 16, 0, 0, 16, WHITE);
    forall i | 0 <= i < 16
      ensures r[i] == 0x01
    {
      assert r[i] == Paint(0x00, Bit(0), WHITE);
    }
    assert FastHLineSpec(blank, 16, 8, 0, -0x8000, 0, -1, WHITE) == r;
  }

  // ---------------------------------------------------------------------------
  // drawFastVLineInternal

  function Clamp8(v: int): (r: int)
    ensures 0 <= r <= 8
  {
    if v < 0 then 0 else if v > 8 then 8 else v
  }

  /** The rows of [y0, y1) that fall in band `band`, as a bit mask of that band's byte. */
  function BandMask(y0: int, y1: int, band: int): Byte
  {
    RangeMask(Clamp8(y0 - 8 * band), Clamp8(y1 - 8 * band))
  }

  lemma BandMaskBit(y0: int, y1: int, band: int, k: int)
    requires 0 <= k < 8
    ensures (BandMask(y0, y1, band) & Bit(k) != 0) == (y0 <= 8 * band + k < y1)
  {
    RangeMaskBit(Clamp8(y0 - 8 * band), Clamp8(y1 - 8 * band), k);
  }

  /** Column x of every band, each byte written through its band's mask as the routine does. */
  function VLineBytes(buf: seq<Byte>, W: int, x: int, y0: int, y1: int, color: int): (r: seq<Byte>)
    requires 0 < W
    ensures |r| == |buf|
  {
    seq(|buf|, i requires 0 <= i < |buf| =>
      if i % W == x then VByte(buf[i], BandMask(y0, y1, i / W), color) else buf[i])
  }

  /** The buffer after drawFastVLineInternal(x, y, h, color) (physical coordinates). */
  function VLineSpec(buf: seq<Byte>, W: int, H: int, x: Int16, y: Int16, h: Int16, color: int)
    : (r: seq<Byte>)
    requires Sized(buf, W, H)
    ensures Sized(r, W, H)
  {
    if x < 0 || x >= W then buf
    else
      var run := ClipRun(y, h, H);
      if run.1 <= 0 then buf else VLineBytes(buf, W, x, run.0, run.0 + run.1, color)
  }

  /** One pixel of the column run: inside the rows it is shaded, elsewhere it is kept. */
  lemma VLineBytesLit(buf: seq<Byte>, W: int, H: int, x: int, y0: int, y1: int, color: int, px: int, py: int)
    requires Sized(buf, W, H) && DefinedColour(color)
    requires 0 <= px < W && 0 <= py < H
    ensures Sized(VLineBytes(buf, W, x, y0, y1, color), W, H)
    ensures Lit(VLineBytes(buf, W, x, y0, y1, color), W, H, px, py)
         == if px == x && y0 <= py < y1 then Shade(Lit(buf, W, H, px, py), color) else Lit(buf, W, H, px, py)
  {
    PixelIndexInside(W, H, px, py);
    var i := ByteIndex(W, px, py);
    if px == x {
      var mask := BandMask(y0, y1, py / 8);
      VByteIsPaint(buf[i], mask, color);
      PaintBit(buf[i], mask, color, py % 8);
      BandMaskBit(y0, y1, py / 8, py % 8);
    }
  }

  /** drawFastVLineInternal as evidently intended: the run clipped without int16 wrap-around. */
  function VLineExactSpec(buf: seq<Byte>, W: int, H: int, x: Int16, y: Int16, h: Int16, color: int)
    : (r: seq<Byte>)
    requires Sized(buf, W, H)
    ensures Sized(r, W, H)
  {
    if x < 0 || x >= W then buf
    else
      var run := ClipRunExact(y, h, H);
      if run.1 <= 0 then buf else VLineBytes(buf, W, x, run.0, run.0 + run.1, color)
  }

  /** Whenever y + h fits in an int16_t, the routine is the intended one. */
  lemma VLineAgrees(buf: seq<Byte>, W: int, H: int, x: Int16, y: Int16, h: Int16, color: int)
    requires Sized(buf, W, H)
    requires -0x8000 <= y + h
    ensures VLineSpec(buf, W, H, x, y, h, color) == VLineExactSpec(buf, W, H, x, y, h, color)
  {
    ClipRunAgrees(y, h, H);
  }

  /** For the three defined colours, the intended routine paints the pixels (x, y .. y+h-1)
      that lie on the panel, for every run. */
  lemma VLineExactPaints(buf: seq<Byte>, W: int, H: int, x: Int16, y: Int16, h: Int16, color: int)
    requires Sized(buf, W, H) && DefinedColour(color)
    ensures Painted(buf, VLineExactSpec(buf, W, H, x, y, h, color), W, H, 0, x, x + 1, y, y + h, color)
  {
    var r := VLineExactSpec(buf, W, H, x, y, h, color);
    if 0 <= x < W {
      var run := ClipRunExact(y, h, H);
      if run.1 > 0 {
        forall px, py | 0 <= px < W && 0 <= py < H
          ensures Lit(r, W, H, px, py) ==
            if InRect((px, py), x, x + 1, y, y + h) then Shade(Lit(buf, W, H, px, py), color)
            else Lit(buf, W, H, px, py)
        {
          VLineBytesLit(buf, W, H, x, run.0, run.0 + run.1, color, px, py);
        }
      }
    }
  }

  /** For the three defined colours, drawFastVLineInternal paints the pixels (x, y .. y+h-1)
      that lie on the panel. */
  lemma VLinePaints(buf: seq<Byte>, W: int, H: int, x: Int16, y: Int16, h: Int16, color: int)
    requires Sized(buf, W, H) && DefinedColour(color)
    requires -0x8000 <= y + h
    ensures Painted(buf, VLineSpec(buf, W, H, x, y, h, color), W, H, 0, x, x + 1, y, y + h, color)
  {
    VLineAgrees(buf, W, H, x, y, h, color);
    VLineExactPaints(buf, W, H, x, y, h, color);
  }

  /** The same wrap in the vertical routine: drawFastVLine(0, -32768, -1, WHITE) fills
      column 0 of a 1 x 16 panel, where drawing the run one pixel at a time draws nothing. */
  lemma VLineWrapFillsColumn()
    ensures FastVLineSpec([0x00, 0x00], 1, 16, 0, 0, -0x8000, -1, WHITE) == [0xFF, 0xFF]
    ensures VPixels([0x00, 0x00], 1, 16, 0, 0, -0x8000, -1, WHITE) == [0x00, 0x00]
    ensures VLineExactSpec([0x00, 0x00], 1, 16, 0, -0x8000, -1, WHITE) == [0x00, 0x00]
  {
    assert ClipRun(-0x8000, -1, 16) == (0, 16);
    RangeMaskFull(0, 8);
    var r := VLineBytes([0x00, 0x00], 1, 0, 0, 16, WHITE);
    assert BandMask(0, 16, 0) == 0xFF && BandMask(0, 16, 1) == 0xFF;
    assert r[0] == VByte(0x00, 0xFF, WHITE) == 0xFF;
    assert r[1] == VByte(0x00, 0xFF, WHITE) == 0xFF;
    assert FastVLineSpec([0x00, 0x00], 1, 16, 0, 0, -0x8000, -1, WHITE) == r;
  }

  /** A colour value outside the switch leaves the buffer as it was after any number of drawPixel calls. */
  lemma {:induction false} VPixelsUndefinedColour(buf: seq<Byte>, W: int, H: int, rot: Rotation,
                                                  x: int, y: int, h: int, color: int)
    requires Sized(buf, W, H) && !DefinedColour(color)
    ensures VPixels(buf, W, H, rot, x, y, h, color) == buf
    decreases h
  {
    if h > 0 {
      DrawPixelUndefinedColour(buf, W, H, rot, x, y, color);
      VPixelsUndefinedColour(buf, W, H, rot, x, y + 1, h - 1, color);
    }
  }

  /** The routine's whole-byte shortcut writes 0x00 for a colour value outside the switch,
      where drawing the same pixels one at a time changes nothing. */
  lemma VLineUndefinedColourClears()
    ensures VLineSpec([0xFF], 1, 8, 0, 0, 8, 3) == [0x00]
    ensures VPixels([0xFF], 1, 8, 0, 0, 0, 8, 3) == [0xFF]
  {
    assert ClipRun(0, 8, 8) == (0, 8);
    RangeMaskFull(0, 8);
    var r := VLineBytes([0xFF], 1, 0, 0, 8, 3);
    assert r[0] == VByte(0xFF, BandMask(0, 8, 0), 3) == 0x00;
    assert VLineSpec([0xFF], 1, 8, 0, 0, 8, 3) == r == [0x00];
    VPixelsUndefinedColour([0xFF], 1, 8, 0, 0, 0, 8, 3);
  }

  /** A vertical run from row 3 to row 12 of column 0 of a 1 x 16 blank panel. */
  lemma VLineWorkedExample()
    ensures VLineSpec([0x00, 0x00], 1, 16, 0, 3, 10, WHITE) == [0xF8, 0x1F]
  {
    var r := VLineSpec([0x00, 0x00], 1, 16, 0, 3, 10, WHITE);
    assert ClipRun(3, 10, 16) == (3, 10);
    PremaskIsHighBits(5);
    PostmaskIsLowBits(5);
    assert BandMask(3, 13, 0) == RangeMask(3, 8) == 0xF8;
    assert BandMask(3, 13, 1) == RangeMask(0, 5) == 0x1F;
    assert r[0] == 0xF8 && r[1] == 0x1F;
  }

  // ---------------------------------------------------------------------------
  // drawFastHLine / drawFastVLine: rotation dispatch

  /** The buffer after drawFastHLine(x, y, w, color) under rotation `rot`; every assignment
      back into an int16_t wraps. */
  function FastHLineSpec(buf: seq<Byte>, W: int, H: int, rot: Rotation, x: Int16, y: Int16, w: Int16, color: int)
    : (r: seq<Byte>)
    requires Sized(buf, W, H)
    ensures Sized(r, W, H)
  {
    if rot == 1 then VLineSpec(buf, W, H, Wrap16(W - y - 1), x, w, color)
    else if rot == 2 then HLineSpec(buf, W, H, Wrap16(Wrap16(W - x - 1) - (w - 1)), Wrap16(H - y - 1), w, color)
    else if rot == 3 then VLineSpec(buf, W, H, y, Wrap16(Wrap16(H - x - 1) - (w - 1)), w, color)
    else HLineSpec(buf, W, H, x, y, w, color)
  }

  /** The buffer after drawFastVLine(x, y, h, color) under rotation `rot`. */
  function FastVLineSpec(buf: seq<Byte>, W: int, H: int, rot: Rotation, x: Int16, y: Int16, h: Int16, color: int)
    : (r: seq<Byte>)
    requires Sized(buf, W, H)
    ensures Sized(r, W, H)
  {
    if rot == 1 then HLineSpec(buf, W, H, Wrap16(Wrap16(W - y - 1) - (h - 1)), x, h, color)
    else if rot == 2 then VLineSpec(buf, W, H, Wrap16(W - x - 1), Wrap16(Wrap16(H - y - 1) - (h - 1)), h, color)
    else if rot == 3 then HLineSpec(buf, W, H, y, Wrap16(H - x - 1), h, color)
    else VLineSpec(buf, W, H, x, y, h, color)
  }

  /** Coordinates and length small enough that no int16 arithmetic of the dispatch wraps. */
  predicate NoWrap(x: int, y: int, len: int)
  {
    -0x2000 <= x <= 0x2000 && -0x2000 <= y <= 0x2000 && -0x2000 <= len <= 0x2000
  }

  lemma FastHLinePaints(buf: seq<Byte>, W: int, H: int, rot: Rotation, x: Int16, y: Int16, w: Int16, color: int)
    requires Sized(buf, W, H) && NoWrap(x, y, w)
    requires DefinedColour(color) || rot % 2 == 0
    ensures Painted(buf, FastHLineSpec(buf, W, H, rot, x, y, w, color), W, H, rot, x, x + w, y, y + 1, color)
  {
    if rot == 0 {
      HLinePaints(buf, W, H, x, y, w, color);
    } else if rot == 1 {
      FastHLineQuarter(buf, W, H, x, y, w, color);
    } else if rot == 2 {
      FastHLineHalf(buf, W, H, x, y, w, color);
    } else {
      FastHLineThreeQuarters(buf, W, H, x, y, w, color);
    }
  }

  lemma FastHLineQuarter(buf: seq<Byte>, W: int, H: int, x: Int16, y: Int16, w: Int16, color: int)
    requires Sized(buf, W, H) && NoWrap(x, y, w) && DefinedColour(color)
    ensures Painted(buf, FastHLineSpec(buf, W, H, 1, x, y, w, color), W, H, 1, x, x + w, y, y + 1, color)
  {
    var r := FastHLineSpec(buf, W, H, 1, x, y, w, color);
    VLinePaints(buf, W, H, W - y - 1, x, w, color);
    PaintedReframe(buf, r, W, H, 0, W - y - 1, W - y, x, x + w, 1, x, x + w, y, y + 1, color);
  }

  lemma FastHLineHalf(buf: seq<Byte>, W: int, H: int, x: Int16, y: Int16, w: Int16, color: int)
    requires Sized(buf, W, H) && NoWrap(x, y, w)
    ensures Painted(buf, FastHLineSpec(buf, W, H, 2, x, y, w, color), W, H, 2, x, x + w, y, y + 1, color)
  {
    var r := FastHLineSpec(buf, W, H, 2, x, y, w, color);
    HLinePaints(buf, W, H, W - x - w, H - y - 1, w, color);
    PaintedReframe(buf, r, W, H, 0, W - x - w, W - x, H - y - 1, H - y, 2, x, x + w, y, y + 1, color);
  }

  lemma FastHLineThreeQuarters(buf: seq<Byte>, W: int, H: int, x: Int16, y: Int16, w: Int16, color: int)
    requires Sized(buf, W, H) && NoWrap(x, y, w) && DefinedColour(color)
    ensures Painted(buf, FastHLineSpec(buf, W, H, 3, x, y, w, color), W, H, 3, x, x + w, y, y + 1, color)
  {
    var r := FastHLineSpec(buf, W, H, 3, x, y, w, color);
    VLinePaints(buf, W, H, y, H - x - w, w, color);
    PaintedReframe(buf, r, W, H, 0, y, y + 1, H - x - w, H - x, 3, x, x + w, y, y + 1, color);
  }

  lemma FastVLinePaints(buf: seq<Byte>, W: int, H: int, rot: Rotation, x: Int16, y: Int16, h: Int16, color: int)
    requires Sized(buf, W, H) && NoWrap(x, y, h)
    requires DefinedColour(color) || rot % 2 == 1
    ensures Painted(buf, FastVLineSpec(buf, W, H, rot, x, y, h, color), W, H, rot, x, x + 1, y, y + h, color)
  {
    if rot == 0 {
      VLinePaints(buf, W, H, x, y, h, color);
    } else if rot == 1 {
      FastVLineQuarter(buf, W, H, x, y, h, color);
    } else if rot == 2 {
      FastVLineHalf(buf, W, H, x, y, h, color);
    } else {
      FastVLineThreeQuarters(buf, W, H, x, y, h, color);
    }
  }

  lemma FastVLineQuarter(buf: seq<Byte>, W: int, H: int, x: Int16, y: Int16, h: Int16, color: int)
    requires Sized(buf, W, H) && NoWrap(x, y, h)
    ensures Painted(buf, FastVLineSpec(buf, W, H, 1, x, y, h, color), W, H, 1, x, x + 1, y, y + h, color)
  {
    var r := FastVLineSpec(buf, W, H, 1, x, y, h, color);
    HLinePaints(buf, W, H, W - y - h, x, h, color);
    PaintedReframe(buf, r, W, H, 0, W - y - h, W - y, x, x + 1, 1, x, x + 1, y, y + h, color);
  }

  lemma FastVLineHalf(buf: seq<Byte>, W: int, H: int, x: Int16, y: Int16, h: Int16, color: int)
    requires Sized(buf, W, H) && NoWrap(x, y, h) && DefinedColour(color)
    ensures Painted(buf, FastVLineSpec(buf, W, H, 2, x, y, h, color), W, H, 2, x, x + 1, y, y + h, color)
  {
    var r := FastVLineSpec(buf, W, H, 2, x, y, h, color);
    VLinePaints(buf, W, H, W - x - 1, H - y - h, h, color);
    PaintedReframe(buf, r, W, H, 0, W - x - 1, W - x, H - y - h, H - y, 2, x, x + 1, y, y + h, color);
  }

  lemma FastVLineThreeQuarters(buf: seq<Byte>, W: int, H: int, x: Int16, y: Int16, h: Int16, color: int)
    requires Sized(buf, W, H) && NoWrap(x, y, h)
    ensures Painted(buf, FastVLineSpec(buf, W, H, 3, x, y, h, color), W, H, 3, x, x + 1, y, y + h, color)
  {
    var r := FastVLineSpec(buf, W, H, 3, x, y, h, color);
    HLinePaints(buf, W, H, y, H - x - 1, h, color);
    PaintedReframe(buf, r, W, H, 0, y, y + h, H - x - 1, H - x, 3, x, x + 1, y, y + h, color);
  }

  /** drawFastHLine gives the same bytes as w drawPixel calls along the logical row, in every
      rotation; under rotations 1 and 3 it goes through the vertical routine, whose whole-byte
      shortcut needs one of the three defined colours. */
  lemma FastHLineMatchesPixels(buf: seq<Byte>, W: int, H: int, rot: Rotation,
                               x: Int16, y: Int16, w: Int16, color: int)
    requires Sized(buf, W, H) && NoWrap(x, y, w)
    requires DefinedColour(color) || rot % 2 == 0
    ensures FastHLineSpec(buf, W, H, rot, x, y, w, color) == HPixels(buf, W, H, rot, x, y, w, color)
  {
    FastHLinePaints(buf, W, H, rot, x, y, w, color);
    HPixelsPaints(buf, W, H, rot, x, y, w, color);
    PaintedUnique(buf, FastHLineSpec(buf, W, H, rot, x, y, w, color), HPixels(buf, W, H, rot, x, y, w, color),
                  W, H, rot, x, x + w, y, y + 1, color);
  }

  /** drawFastVLine gives the same bytes as h drawPixel calls down the logical column. */
  lemma FastVLineMatchesPixels(buf: seq<Byte>, W: int, H: int, rot: Rotation,
                               x: Int16, y: Int16, h: Int16, color: int)
    requires Sized(buf, W, H) && NoWrap(x, y, h)
    requires DefinedColour(color) || rot % 2 == 1
    ensures FastVLineSpec(buf, W, H, rot, x, y, h, color) == VPixels(buf, W, H, rot, x, y, h, color)
  {
    FastVLinePaints(buf, W, H, rot, x, y, h, color);
    VPixelsPaints(buf, W, H, rot, x, y, h, color);
    PaintedUnique(buf, FastVLineSpec(buf, W, H, rot, x, y, h, color), VPixels(buf, W, H, rot, x, y, h, color),
                  W, H, rot, x, x + 1, y, y + h, color);
  }
}
