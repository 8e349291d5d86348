/** The vertical-byte packing that both splash packers apply to an image
    (splash/make_splash.py, extras/make_splash.py): each byte holds eight pixels of one
    column, top pixel in bit 0, bands of eight rows laid out one after the other. This is
    the buffer layout drawPixel addresses, so a packed image is a framebuffer that shows it. */
module Packing {
  import opened Profiles
  import opened FrameBuffer

  /** An image as rows of pixel values: m[y][x] is the pixel in column x of row y. */
  type Image = seq<seq<int>>

  /** An image of w columns and h rows. */
  predicate Rect(m: Image, w: int, h: int)
  {
    |m| == h && forall y | 0 <= y < h :: |m[y]| == w
  }

  /** Pixel (x, y) is set: it lies inside the image and its value is nonzero. */
  predicate On(m: Image, x: int, y: int)
  {
    0 <= y < |m| && 0 <= x < |m[y]| && m[y][x] != 0
  }

  /** Column x of band b, rows 8b .. 8b + n - 1 as bits 0 .. n - 1. */
  function StripByte(m: Image, x: int, b: int, n: nat): Byte
    requires n <= 8
  {
    if n == 0 then 0 else StripByte(m, x, b, n - 1) | (if On(m, x, 8 * b + n - 1) then Bit(n - 1) else 0)
  }

  lemma OrBit(u: Byte, v: Byte, j: int, k: int)
    requires 0 <= j < 8 && 0 <= k < 8 && (v == 0 || v == Bit(j))
    ensures ((u | v) & Bit(k) != 0) == ((u & Bit(k) != 0) || (v != 0 && j == k))
  {
    BitDistinct(j, k);
  }

  /** Bit k of a strip byte is set exactly when row 8b + k is among its first n rows and
      the pixel there is set. */
  lemma {:induction false} StripByteBit(m: Image, x: int, b: int, n: nat, k: int)
    requires n <= 8 && 0 <= k < 8
    ensures (StripByte(m, x, b, n) & Bit(k) != 0) == (k < n && On(m, x, 8 * b + k))
  {
    if n > 0 {
      StripByteBit(m, x, b, n - 1, k);
      OrBit(StripByte(m, x, b, n - 1), if On(m, x, 8 * b + n - 1) then Bit(n - 1) else 0, n - 1, k);
    }
  }

  /** Band b: one strip byte per column, left to right. */
  function Band(m: Image, w: nat, b: int): seq<Byte>
  {
    seq(w, x => StripByte(m, x, b, 8))
  }

  /** The bands 0 .. bands - 1 one after the other. */
  function Packed(m: Image, w: nat, bands: nat): seq<Byte>
  {
    if bands == 0 then [] else Packed(m, w, bands - 1) + Band(m, w, bands - 1)
  }

  lemma {:induction false} PackedLength(m: Image, w: nat, bands: nat)
    ensures |Packed(m, w, bands)| == w * bands
  {
    if bands > 0 {
      PackedLength(m, w, bands - 1);
      assert w * bands == w * (bands - 1) + w;
    }
  }

  /** Byte x + b * w of the packing is the strip byte of column x in band b. */
  lemma {:induction false} PackedByte(m: Image, w: nat, bands: nat, b: int, x: int)
    requires 0 <= b < bands && 0 <= x < w
    ensures 0 <= x + b * w < |Packed(m, w, bands)|
    ensures Packed(m, w, bands)[x + b * w] == StripByte(m, x, b, 8)
  {
    PackedLength(m, w, bands - 1);
    PackedLength(m, w, bands);
    assert w * bands == w * (bands - 1) + w;
    if b < bands - 1 {
      PackedByte(m, w, bands - 1, b, x);
    } else {
      assert x + b * w == w * (bands - 1) + x;
    }
  }

  /** Every pixel of a packed image is lit where drawPixel looks for it, and only the set
      pixels are. */
  lemma PackedShowsImage(m: Image, w: int, h: int)
    requires Rect(m, w, h) && Geometry(w, h)
    ensures Sized(Packed(m, w, h / 8), w, h)
    ensures forall x, y | 0 <= x < w && 0 <= y < h :: Lit(Packed(m, w, h / 8), w, h, x, y) == (m[y][x] != 0)
  {
    PackedLength(m, w, h / 8);
    forall x, y | 0 <= x < w && 0 <= y < h
      ensures Lit(Packed(m, w, h / 8), w, h, x, y) == (m[y][x] != 0)
    {
      PixelIndexInside(w, h, x, y);
      PackedByte(m, w, h / 8, y / 8, x);
      StripByteBit(m, x, y / 8, 8, y % 8);
      assert 8 * (y / 8) + y % 8 == y;
    }
  }

  /** The image a buffer shows: 1 where the pixel is lit, 0 elsewhere. */
  function Unpack(buf: seq<Byte>, w: int, h: int): (m: Image)
    requires Sized(buf, w, h)
    ensures Rect(m, w, h)
  {
    seq(h, y requires 0 <= y < h => seq(w, x requires 0 <= x < w => if Lit(buf, w, h, x, y) then 1 else 0))
  }

  /** Unpacking a packed image gives it back with every set pixel as 1. */
  lemma UnpackPacked(m: Image, w: int, h: int)
    requires Rect(m, w, h) && Geometry(w, h)
    ensures Sized(Packed(m, w, h / 8), w, h)
    ensures forall x, y | 0 <= x < w && 0 <= y < h ::
      Unpack(Packed(m, w, h / 8), w, h)[y][x] == (if m[y][x] != 0 then 1 else 0)
  {
    PackedShowsImage(m, w, h);
  }

  /** Packing the image a buffer shows gives the buffer back. */
  lemma PackedUnpack(buf: seq<Byte>, w: int, h: int)
    requires Sized(buf, w, h)
    ensures Packed(Unpack(buf, w, h), w, h / 8) == buf
  {
    var m := Unpack(buf, w, h);
    PackedShowsImage(m, w, h);
    SamePixelsSameBuffer(Packed(m, w, h / 8), buf, w, h);
  }

  /** A strip byte depends only on which of its pixels are set. */
  lemma {:induction false} StripByteSame(m1: Image, m2: Image, x: int, b: int, n: nat)
    requires n <= 8
    requires forall y | 8 * b <= y < 8 * b + n :: On(m1, x, y) == On(m2, x, y)
    ensures StripByte(m1, x, b, n) == StripByte(m2, x, b, n)
  {
    if n > 0 {
      StripByteSame(m1, m2, x, b, n - 1);
      assert On(m1, x, 8 * b + n - 1) == On(m2, x, 8 * b + n - 1);
    }
  }

  /** Setting one more pixel of a strip sets its bit and no other. */
  lemma {:induction false} StripByteAdd(m1: Image, m2: Image, x: int, b: int, k: int, n: nat)
    requires 0 <= k < 8 && n <= 8 && On(m2, x, 8 * b + k)
    requires forall y | 8 * b <= y < 8 * b + 8 && y != 8 * b + k :: On(m1, x, y) == On(m2, x, y)
    ensures StripByte(m2, x, b, n) == StripByte(m1, x, b, n) | (if k < n then Bit(k) else 0)
  {
    if n > 0 {
      StripByteAdd(m1, m2, x, b, k, n - 1);
      if n - 1 != k {
        assert On(m1, x, 8 * b + n - 1) == On(m2, x, 8 * b + n - 1);
      }
    }
  }

  /** Two images whose set pixels agree within w columns and 8 * bands rows pack alike. */
  lemma {:induction false} PackedSame(m1: Image, m2: Image, w: nat, bands: nat)
    requires forall x, y | 0 <= x < w && 0 <= y < 8 * bands :: On(m1, x, y) == On(m2, x, y)
    ensures Packed(m1, w, bands) == Packed(m2, w, bands)
  {
    if bands > 0 {
      var b := bands - 1;
      PackedSame(m1, m2, w, b);
      forall x | 0 <= x < w ensures StripByte(m1, x, b, 8) == StripByte(m2, x, b, 8) {
        StripByteSame(m1, m2, x, b, 8);
      }
      assert Band(m1, w, b) == Band(m2, w, b);
    }
  }

  /** A byte sequence holding the strip byte of column x in band b at x + b * w is the packing. */
  lemma PackedUnique(s: seq<Byte>, m: Image, w: nat, bands: nat)
    requires |s| == w * bands
    requires forall b, x | 0 <= b < bands && 0 <= x < w :: 0 <= x + b * w < |s| && s[x + b * w] == StripByte(m, x, b, 8)
    ensures s == Packed(m, w, bands)
  {
    PackedLength(m, w, bands);
    forall k | 0 <= k < |s| ensures s[k] == Packed(m, w, bands)[k] {
      var b, x := SplitIndex(k, w, bands);
      PackedByte(m, w, bands, b, x);
    }
  }

  /** Every index below w * bands is column x of band b for one pair (x, b). */
  lemma SplitIndex(k: int, w: nat, bands: nat) returns (b: int, x: int)
    requires 0 <= k < w * bands
    ensures 0 <= b < bands && 0 <= x < w && k == x + b * w
  {
    b, x := k / w, k % w;
    if b >= bands {
      MulLe(bands, b, w);
    }
  }

  /** Two cells of a packing w bytes wide share an index only if they are the same cell. */
  lemma SameCell(x: int, b: int, i: int, c: int, w: int)
    requires 0 <= x < w && 0 <= i < w && 0 <= b && 0 <= c
    ensures (x + b * w == i + c * w) == (x == i && b == c)
  {
    if x + b * w == i + c * w {
      DivModUnique(x, b, w);
      DivModUnique(i, c, w);
    }
  }

  /** Setting bit k of the byte of column i in band c of a packing packs the image whose
      strips differ from the old one by that bit alone. */
  lemma PackedSetBit(out: seq<Byte>, m1: Image, m2: Image, w: nat, bands: nat, i: int, c: int, k: int)
    requires out == Packed(m1, w, bands) && 0 <= i < w && 0 <= c < bands && 0 <= k < 8
    requires forall b, x | 0 <= b < bands && 0 <= x < w ::
      StripByte(m2, x, b, 8) == StripByte(m1, x, b, 8) | (if x == i && b == c then Bit(k) else 0)
    ensures 0 <= i + c * w < |out|
    ensures out[i + c * w := out[i + c * w] | Bit(k)] == Packed(m2, w, bands)
  {
    PackedByte(m1, w, bands, c, i);
    var idx := i + c * w;
    var s := out[idx := out[idx] | Bit(k)];
    PackedLength(m1, w, bands);
    forall b, x | 0 <= b < bands && 0 <= x < w
      ensures 0 <= x + b * w < |s| && s[x + b * w] == StripByte(m2, x, b, 8)
    {
      PackedByte(m1, w, bands, b, x);
      SameCell(x, b, i, c, w);
    }
    PackedUnique(s, m2, w, bands);
  }
}
