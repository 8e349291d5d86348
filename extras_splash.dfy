/** The older splash packer extras/make_splash.py: a 128x64 image is turned into a bit
    matrix (dark pixels become 1), packed once into vertical bytes, and printed as three
    C array initialisers for the 96x16, 128x32 and 128x64 panels, sixteen "0xHH" tokens to
    a line. */
module SplashExtras {
  import opened Profiles
  import opened FrameBuffer
  import opened Literals
  import opened Packing
  import opened Splash

  datatype Option<T> = None | Some(value: T)

  // ---------------------------------------------------------------------------
  // makeMatrix

  /** The image has the 128x64 corner makeMatrix reads: 64 rows, each at least 128 wide. */
  predicate Covers(im: Image)
  {
    |im| >= 64 && forall y | 0 <= y < 64 :: |im[y]| >= 128
  }

  /** One row of the matrix: 1 where the pixel is 0 (dark), 0 where it is nonzero. */
  function InvertedRow(pixels: seq<int>): (row: seq<int>)
    requires |pixels| >= 128
    ensures |row| == 128
  {
    seq(128, x requires 0 <= x < 128 => if pixels[x] != 0 then 0 else 1)
  }

  /** The bit matrix of the top-left 128x64 corner, so the image is inverted. */
  function Inverted(im: Image): (bits: Image)
    requires Covers(im)
    ensures Rect(bits, 128, 64)
  {
    seq(64, y requires 0 <= y < 64 => InvertedRow(im[y]))
  }

  /** Reads the pixels row by row and column by column into 64 rows of 128 entries; a
      pixel outside the image (getpixel's IndexError) ends it with no matrix. */
  method MakeMatrix(im: Image) returns (r: Option<Image>)
    ensures r.None? <==> !Covers(im)
    ensures r.Some? ==> r.value == Inverted(im)
    ensures r.Some? ==> forall y, x | 0 <= y < 64 && 0 <= x < 128 :: (r.value[y][x] == 1) == (im[y][x] == 0)
  {
    var bits: Image := [];
    for y := 0 to 64
      invariant y <= |im|
      invariant forall j | 0 <= j < y :: |im[j]| >= 128
      invariant |bits| == y
      invariant forall j | 0 <= j < y :: bits[j] == InvertedRow(im[j])
    {
      if y >= |im| {
        return None;
      }
      var row: seq<int> := [];
      for x := 0 to 128
        invariant x <= |im[y]|
        invariant |row| == x
        invariant forall i | 0 <= i < x :: row[i] == if im[y][i] != 0 then 0 else 1
      {
        if x >= |im[y]| {
          return None;
        }
        var v := 1;
        if im[y][x] != 0 {
          v := 0;
        }
        row := row + [v];
      }
      assert row == InvertedRow(im[y]);
      bits := bits + [row];
    }
    assert bits == Inverted(im);
    r := Some(bits);
  }

  // ---------------------------------------------------------------------------
  // verticalBytes

  /** The matrix has a first row, and no row is shorter than it: its width is the first
      row's length. */
  predicate Rows(bits: Image)
  {
    |bits| > 0 && forall j | 0 <= j < |bits| :: |bits[0]| <= |bits[j]|
  }

  /** Some set cell lies in the rows below the last full band of eight. */
  predicate Overhang(bits: Image)
    requires Rows(bits)
  {
    exists y, x | 8 * (|bits| / 8) <= y < |bits| && 0 <= x < |bits[0]| :: bits[y][x] != 0
  }

  /** The matrix with only the cells before (i, j) in row order kept, the rest cleared. */
  function Masked(m: Image, j: int, i: int): Image
  {
    seq(|m|, y requires 0 <= y < |m| =>
      seq(|m[y]|, x requires 0 <= x < |m[y]| => if y < j || (y == j && x < i) then m[y][x] else 0))
  }

  lemma MaskedOn(m: Image, j: int, i: int)
    ensures forall x, y :: On(Masked(m, j, i), x, y) == (On(m, x, y) && (y < j || (y == j && x < i)))
  {
  }

  /** No cell is set in a strip that has no set pixel. */
  lemma {:induction false} StripByteNone(m: Image, x: int, b: int, n: nat)
    requires n <= 8
    requires forall y | 8 * b <= y < 8 * b + n :: !On(m, x, y)
    ensures StripByte(m, x, b, n) == 0
  {
    if n > 0 {
      StripByteNone(m, x, b, n - 1);
      assert !On(m, x, 8 * b + n - 1);
    }
  }

  /** Packing a matrix with no set cell gives zero bytes. */
  lemma {:induction false} PackedBlank(m: Image, w: nat, bands: nat)
    requires forall x, y :: !On(m, x, y)
    ensures Packed(m, w, bands) == seq(w * bands, _ => 0)
  {
    if bands > 0 {
      var b := bands - 1;
      PackedBlank(m, w, b);
      forall x | 0 <= x < w ensures StripByte(m, x, b, 8) == 0 {
        StripByteNone(m, x, b, 8);
      }
      assert w * bands == w * b + w;
    }
  }

  /** Byte i + (j / 8) * w exists exactly when row j lies in a full band. */
  lemma TailIndex(j: int, i: int, w: int, h: int)
    requires 0 <= j && 0 <= i < w && 0 <= h
    ensures (i + (j / 8) * w < w * (h / 8)) == (j < 8 * (h / 8))
  {
    if j < 8 * (h / 8) {
      CellBelow(j / 8, i, w, h / 8);
    } else {
      MulLe(h / 8, j / 8, w);
    }
  }

  /** Keeping one more cell that is clear, or that lies outside the bands, packs alike. */
  lemma MaskSame(bits: Image, w: nat, bands: nat, j: int, i: int)
    requires 0 <= j < |bits| && 0 <= i < |bits[j]|
    requires bits[j][i] == 0 || j >= 8 * bands
    ensures Packed(Masked(bits, j, i + 1), w, bands) == Packed(Masked(bits, j, i), w, bands)
  {
    MaskedOn(bits, j, i);
    MaskedOn(bits, j, i + 1);
    PackedSame(Masked(bits, j, i + 1), Masked(bits, j, i), w, bands);
  }

  /** Keeping one more set cell (i, j) changes the strip holding it by bit j % 8 only. */
  lemma MaskAddStrip(bits: Image, j: int, i: int, b: int, x: int)
    requires 0 <= j < |bits| && 0 <= i < |bits[j]| && bits[j][i] != 0 && 0 <= b
    ensures var m1, m2 := Masked(bits, j, i), Masked(bits, j, i + 1);
      StripByte(m2, x, b, 8) == StripByte(m1, x, b, 8) | (if x == i && b == j / 8 then Bit(j % 8) else 0)
  {
    var m1, m2 := Masked(bits, j, i), Masked(bits, j, i + 1);
    MaskedOn(bits, j, i);
    MaskedOn(bits, j, i + 1);
    if x == i && b == j / 8 {
      assert 8 * b + j % 8 == j;
      StripByteAdd(m1, m2, x, b, j % 8, 8);
    } else {
      StripByteSame(m1, m2, x, b, 8);
    }
  }

  /** Keeping one more set cell inside the bands sets bit j % 8 of byte i + (j / 8) * w. */
  lemma MaskAdd(bits: Image, w: nat, bands: nat, j: int, i: int, out: seq<Byte>)
    requires 0 <= j < 8 * bands && j < |bits| && 0 <= i < w <= |bits[j]| && bits[j][i] != 0
    requires out == Packed(Masked(bits, j, i), w, bands)
    ensures 0 <= i + (j / 8) * w < |out|
    ensures out[i + (j / 8) * w := out[i + (j / 8) * w] | Bit(j % 8)] == Packed(Masked(bits, j, i + 1), w, bands)
  {
    forall b, x | 0 <= b < bands && 0 <= x < w
      ensures StripByte(Masked(bits, j, i + 1), x, b, 8) ==
        StripByte(Masked(bits, j, i), x, b, 8) | (if x == i && b == j / 8 then Bit(j % 8) else 0)
    {
      MaskAddStrip(bits, j, i, b, x);
    }
    PackedSetBit(out, Masked(bits, j, i), Masked(bits, j, i + 1), w, bands, i, j / 8, j % 8);
  }

  /** One cell of verticalBytes: byte i + (j / 8) * w exists exactly when row j lies in a
      full band; a set cell there sets bit j % 8 of it, and any other cell changes nothing. */
  lemma MaskStep(bits: Image, w: nat, bands: nat, j: int, i: int, out: seq<Byte>)
    requires 0 <= j < |bits| && 0 <= i < w <= |bits[j]|
    requires |out| == w * bands && out == Packed(Masked(bits, j, i), w, bands)
    ensures (i + (j / 8) * w < |out|) == (j < 8 * bands)
    ensures bits[j][i] != 0 && j < 8 * bands ==>
      0 <= i + (j / 8) * w && out[i + (j / 8) * w := out[i + (j / 8) * w] | Bit(j % 8)] == Packed(Masked(bits, j, i + 1), w, bands)
    ensures bits[j][i] == 0 || j >= 8 * bands ==> out == Packed(Masked(bits, j, i + 1), w, bands)
  {
    TailIndex(j, i, w, 8 * bands);
    if bits[j][i] != 0 && j < 8 * bands {
      MaskAdd(bits, w, bands, j, i, out);
    } else {
      MaskSame(bits, w, bands, j, i);
    }
  }

  /** Finishing row j keeps the whole row: within the first w columns nothing changes. */
  lemma MaskRow(bits: Image, w: nat, bands: nat, j: int)
    requires 0 <= j < |bits| && w <= |bits[j]|
    ensures Packed(Masked(bits, j, w), w, bands) == Packed(Masked(bits, j + 1, 0), w, bands)
  {
    MaskedOn(bits, j, w);
    MaskedOn(bits, j + 1, 0);
    PackedSame(Masked(bits, j, w), Masked(bits, j + 1, 0), w, bands);
  }

  /** Before the first cell nothing is kept; after the last row everything is. */
  lemma MaskEnds(bits: Image, w: nat, bands: nat)
    ensures Packed(Masked(bits, 0, 0), w, bands) == seq(w * bands, _ => 0)
    ensures Packed(Masked(bits, |bits|, 0), w, bands) == Packed(bits, w, bands)
  {
    MaskedOn(bits, 0, 0);
    PackedBlank(Masked(bits, 0, 0), w, bands);
    MaskedOn(bits, |bits|, 0);
    PackedSame(Masked(bits, |bits|, 0), bits, w, bands);
  }

  /** Sets bit j & 7 of byte i + (j / 8) * w for every set cell (i, j), w the first row's
      length. A set cell below the last full band indexes past the bytes, which raises
      an IndexError: that is None here. */
  method VerticalBytes(bits: Image) returns (r: Option<seq<Byte>>)
    requires Rows(bits)
    ensures r.None? <==> Overhang(bits)
    ensures r.Some? ==> r.value == Packed(bits, |bits[0]|, |bits| / 8)
  {
    var w, h := |bits[0]|, |bits|;
    var bands := h / 8;
    var out: seq<Byte> := seq(w * bands, _ => 0);
    MaskEnds(bits, w, bands);
    for j := 0 to h
      invariant |out| == w * bands && out == Packed(Masked(bits, j, 0), w, bands)
      invariant TailClear(bits, w, bands, j, 0)
    {
      for i := 0 to w
        invariant |out| == w * bands && out == Packed(Masked(bits, j, i), w, bands)
        invariant TailClear(bits, w, bands, j, i)
      {
        MaskStep(bits, w, bands, j, i, out);
        TailStep(bits, w, bands, j, i);
        if bits[j][i] != 0 {
          var idx := i + (j / 8) * w;
          if idx >= |out| {
            assert 8 * bands <= j < h && 0 <= i < w && bits[j][i] != 0;
            return None;
          }
          out := out[idx := out[idx] | Bit(j % 8)];
        }
      }
      MaskRow(bits, w, bands, j);
    }
    TailEnd(bits, w, bands);
    return Some(out);
  }

  /** No cell before (i, j) in row order below the last full band, within w columns, is set. */
  predicate TailClear(bits: Image, w: int, bands: int, j: int, i: int)
  {
    forall y, x | 0 <= 8 * bands <= y < |bits| && 0 <= x < w && x < |bits[y]| && (y < j || (y == j && x < i)) :: bits[y][x] == 0
  }

  lemma TailStep(bits: Image, w: int, bands: int, j: int, i: int)
    requires 0 <= bands && 0 <= j < |bits| && 0 <= i < w <= |bits[j]| && TailClear(bits, w, bands, j, i)
    ensures TailClear(bits, w, bands, j, i + 1) <==> (bits[j][i] == 0 || j < 8 * bands)
    ensures i + 1 == w ==> (TailClear(bits, w, bands, j, i + 1) <==> TailClear(bits, w, bands, j + 1, 0))
  {
    if bits[j][i] != 0 && 8 * bands <= j {
      assert !(bits[j][i] == 0);
    }
  }

  lemma TailEnd(bits: Image, w: int, bands: int)
    requires Rows(bits) && w == |bits[0]| && bands == |bits| / 8 && TailClear(bits, w, bands, |bits|, 0)
    ensures !Overhang(bits)
  {
  }

  // ---------------------------------------------------------------------------
  // arrayDefinition

  /** The first line of a declaration, up to and including its opening brace. */
  function Header(w: nat, h: nat): (s: string)
    ensures |s| > 0 && s[|s| - 1] == '\n'
  {
    "uint8_t Adafruit_SSD1306_Driver::Splash<" + Decimal(w) + ", " + Decimal(h) + ">::buffer[" +
    Decimal(w) + " * " + Decimal(h) + " / 8] = {\n"
  }

  /** The declaration of a w x h splash holding the first (h / 8) * w bytes. */
  function DefinitionText(out: seq<Byte>, w: nat, h: nat): string
    requires (h / 8) * w <= |out|
  {
    Closed(out, Header(w, h), (h / 8) * w)
  }

  /** A header and n tokens, sixteen to a line, then the closing brace. With no tokens,
      trimming takes the header's last character and the braces close on its line. */
  function Closed(out: seq<Byte>, header: string, n: nat): string
    requires n <= |out| && |header| > 0
  {
    (if n == 0 then header[..|header| - 1] else header + Listed(out, n, "\n")) + "};\n"
  }

  /** What the loops of arrayDefinition append for the first m bytes: each token after
      its separator (a newline before every nonzero multiple of 16, a space before every
      other index but 0) and followed by a comma. */
  function Tokens(out: seq<Byte>, m: nat): string
    requires m <= |out|
  {
    if m == 0 then "" else Tokens(out, m - 1) + Separator(m - 1) + (Hex2(out[m - 1]) + ",")
  }

  function Separator(k: nat): string
  {
    if LinePos(k) == 0 then (if k != 0 then "\n" else "") else " "
  }

  /** The appended tokens are the list of the bytes, lines broken after every sixteenth,
      and a trailing comma. */
  lemma {:induction false} TokensListed(out: seq<Byte>, m: nat)
    requires 1 <= m <= |out|
    ensures Tokens(out, m) == Listed(out, m, "\n") + ","
  {
    var t := Hex2(out[m - 1]) + ",";
    if m == 1 {
      EmptyPrefix(Separator(0) + t);
      assert Tokens(out, 1) == "" + Separator(0) + t;
    } else {
      TokensListed(out, m - 1);
      var l := Listed(out, m - 1, "\n");
      assert Between(m - 1, "\n") == "," + Separator(m - 1);
      Regroup(l, ",", Separator(m - 1), t);
    }
  }

  /** One pass of the inner loop: the separator of token m, then the token and its comma. */
  lemma TokenStep(out: seq<Byte>, header: string, m: nat, d: string)
    requires m < |out| && d == header + Tokens(out, m)
    ensures LinePos(m) == 0 && m == 0 ==> d + (Hex2(out[m]) + ",") == header + Tokens(out, m + 1)
    ensures LinePos(m) == 0 && m != 0 ==> d + "\n" + (Hex2(out[m]) + ",") == header + Tokens(out, m + 1)
    ensures LinePos(m) != 0 ==> d + " " + (Hex2(out[m]) + ",") == header + Tokens(out, m + 1)
  {
    var t := Hex2(out[m]) + ",";
    Append3(header, Tokens(out, m), Separator(m), t);
    if LinePos(m) == 0 && m == 0 {
      assert d + "" == d;
    }
  }

  /** After the loops: dropping the last comma (or, with no tokens, the header's newline)
      and closing the brace gives the declaration. */
  lemma Finish(out: seq<Byte>, w: nat, h: nat, d: string)
    requires (h / 8) * w <= |out| && d == Header(w, h) + Tokens(out, (h / 8) * w)
    ensures |d| > 0 && d[..|d| - 1] + "};\n" == DefinitionText(out, w, h)
  {
    TrimClose(out, Header(w, h), (h / 8) * w);
  }

  /** Dropping the last comma (or, with no tokens, the header's newline) and closing. */
  lemma TrimClose(out: seq<Byte>, header: string, n: nat)
    requires n <= |out| && |header| > 0
    ensures var d := header + Tokens(out, n); d[..|d| - 1] + "};\n" == Closed(out, header, n)
  {
    if n > 0 {
      TokensListed(out, n);
      var d, l := header + Tokens(out, n), Listed(out, n, "\n");
      assert d == (header + l) + ",";
      assert d[..|d| - 1] == header + l;
    } else {
      assert header + Tokens(out, 0) == header;
    }
  }

  /** Writes every token of the first (h / 8) * w bytes with its separator and comma,
      drops the last character and closes the brace. */
  method ArrayDefinition(out: seq<Byte>, w: nat, h: nat) returns (decl: string)
    requires (h / 8) * w <= |out|
    ensures decl == DefinitionText(out, w, h)
  {
    decl := "";
    decl := decl + Header(w, h);
    EmptyPrefix(Header(w, h));
    decl := AppendTokens(decl, out, w, h / 8);
    Finish(out, w, h, decl);
    decl := decl[..|decl| - 1];
    decl := decl + "};\n";
  }

  /** The two loops of arrayDefinition: token j * w + i for every band j and column i,
      each after its separator and followed by a comma. */
  method AppendTokens(start: string, out: seq<Byte>, w: nat, bands: nat) returns (decl: string)
    requires bands * w <= |out|
    ensures decl == start + Tokens(out, bands * w)
  {
    decl := start;
    assert start + Tokens(out, 0) == start;
    ghost var m: nat := 0;
    for j := 0 to bands
      invariant m == j * w <= |out|
      invariant decl == start + Tokens(out, m)
    {
      for i := 0 to w
        invariant m == j * w + i <= |out|
        invariant decl == start + Tokens(out, m)
      {
        var ir := j * w + i;
        CellBelow(j, i, w, bands);
        LinePosIsMod(ir);
        TokenStep(out, start, ir, decl);
        if ir % 16 == 0 {
          if ir != 0 {
            decl := decl + "\n";
          }
        } else {
          decl := decl + " ";
        }
        decl := decl + (Hex2(out[ir]) + ",");
        m := m + 1;
      }
      NextRow(j, w, bands);
    }
  }

  /** The declaration reads back: the header, then the tokens at their offsets giving the
      bytes in order, then the closing brace. */
  lemma DefinitionReadsBack(out: seq<Byte>, w: nat, h: nat)
    requires 1 <= (h / 8) * w <= |out|
    ensures DefinitionText(out, w, h)[..|Header(w, h)|] == Header(w, h)
    ensures var text := DefinitionText(out, w, h); text[|text| - 3..] == "};\n"
    ensures forall k | 0 <= k < (h / 8) * w ::
      var text, start := DefinitionText(out, w, h), |Header(w, h)|;
      TokenOffset(k, 1) + 4 <= |text| - start && TokenValue(text[start..], k, 1) == out[k] as int
  {
    var n, header := (h / 8) * w, Header(w, h);
    var body := Listed(out, n, "\n");
    ListedReadsBack(out, n, "\n");
    assert DefinitionText(out, w, h) == header + (body + "};\n");
    TokensFramed(header, body, "};\n", out, n, 1);
  }

  // ---------------------------------------------------------------------------
  // main

  /** The image is inverted, packed once at 128x64, and the same bytes are printed as the
      96x16, 128x32 and 128x64 declarations. */
  method Convert(im: Image) returns (r: Option<seq<string>>)
    ensures r.None? <==> !Covers(im)
    ensures r.Some? ==> var out := Packed(Inverted(im), 128, 8);
      |out| == 1024 &&
      r.value == [DefinitionText(out, 96, 16), DefinitionText(out, 128, 32), DefinitionText(out, 128, 64)]
  {
    var m := MakeMatrix(im);
    if m.None? {
      return None;
    }
    var bits := m.value;
    assert |bits| == 64 && |bits[0]| == 128;
    var v := VerticalBytes(bits);
    assert !Overhang(bits);
    var out := v.value;
    PackedLength(bits, 128, 8);
    assert |out| == 1024;
    var small := ArrayDefinition(out, 96, 16);
    var half := ArrayDefinition(out, 128, 32);
    var full := ArrayDefinition(out, 128, 64);
    r := Some([small, half, full]);
  }

  /** A lit pixel of the 128x64 packing is a dark pixel of the image. */
  lemma DarkPixelsLit(im: Image)
    requires Covers(im)
    ensures Sized(Packed(Inverted(im), 128, 8), 128, 64)
    ensures forall x, y | 0 <= x < 128 && 0 <= y < 64 :: Lit(Packed(Inverted(im), 128, 8), 128, 64, x, y) == (im[y][x] == 0)
  {
    PackedShowsImage(Inverted(im), 128, 64);
  }

  /** The image of the counterexample: every pixel bright but (0, 8). */
  function OneDark(): (im: Image)
    ensures |im| == 64 && forall y | 0 <= y < 64 :: |im[y]| == 128
  {
    seq(64, y => seq(128, x => if x == 0 && y == 8 then 0 else 1))
  }

  /** As written, the 96x16 declaration lists the first 192 bytes of the 128-wide packing,
      so its second band starts at column 96 of the first band: pixel (0, 8) of the image
      is dark, yet the 96x16 panel shows it unlit. */
  lemma ShiftedSmallSplash()
    ensures var im, out := OneDark(), Packed(Inverted(OneDark()), 128, 8);
      im[8][0] == 0 && |out| == 1024 && Sized(out[..192], 96, 16) && !Lit(out[..192], 96, 16, 0, 8)
  {
    var im := OneDark();
    var bits := Inverted(im);
    var out := Packed(bits, 128, 8);
    PackedLength(bits, 128, 8);
    PackedByte(bits, 128, 8, 0, 96);
    forall y | 0 <= y < 8 ensures !On(bits, 96, y) {
      assert bits[y][96] == 0;
    }
    StripByteNone(bits, 96, 0, 8);
    assert ByteIndex(96, 0, 8) == 96;
    assert out[..192][96] == 0;
  }

  /** The bytes a w x h panel needs from the 128x64 packing: byte j * w + i of its buffer is
      column i of band j, byte j * 128 + i of the packing. */
  function Window(out: seq<Byte>, w: nat, h: nat): (s: seq<Byte>)
    requires 0 < w <= 128 && h <= 64 && |out| == 1024
    ensures |s| == (h / 8) * w
  {
    seq((h / 8) * w, k requires 0 <= k < (h / 8) * w => WindowByte(out, w, h / 8, k))
  }

  function WindowByte(out: seq<Byte>, w: nat, bands: nat, k: int): Byte
    requires 0 < w <= 128 && bands <= 8 && |out| == 1024 && 0 <= k < bands * w
  {
    WindowIndex(k, w, bands);
    out[(k / w) * 128 + k % w]
  }

  lemma WindowIndex(k: int, w: nat, bands: nat)
    requires 0 < w <= 128 && 0 <= k < bands * w
    ensures 0 <= k % w < w && 0 <= k / w < bands && 0 <= (k / w) * 128 + k % w < bands * 128
  {
    var b, x := SplitIndex(k, w, bands);
    DivModUnique(x, b, w);
    MulLe(b + 1, bands, 128);
  }

  /** A w x h panel given the window shows the top-left w x h corner of the 128x64 image. */
  lemma WindowShowsCorner(out: seq<Byte>, w: int, h: int)
    requires Sized(out, 128, 64) && Geometry(w, h) && w <= 128 && h <= 64
    ensures Sized(Window(out, w, h), w, h)
    ensures forall x, y | 0 <= x < w && 0 <= y < h :: Lit(Window(out, w, h), w, h, x, y) == Lit(out, 128, 64, x, y)
  {
    forall x, y | 0 <= x < w && 0 <= y < h
      ensures Lit(Window(out, w, h), w, h, x, y) == Lit(out, 128, 64, x, y)
    {
      var k := ByteIndex(w, x, y);
      PixelIndexInside(w, h, x, y);
      DivModUnique(x, y / 8, w);
      assert Window(out, w, h)[k] == out[ByteIndex(128, x, y)];
    }
  }

  /** For a full-width panel the window is the first (h / 8) * 128 bytes, which the source
      already prints. */
  lemma WindowFullWidth(out: seq<Byte>, h: nat)
    requires |out| == 1024 && h <= 64
    ensures Window(out, 128, h) == out[..(h / 8) * 128]
  {
    forall k | 0 <= k < (h / 8) * 128 ensures Window(out, 128, h)[k] == out[k] {
      WindowIndex(k, 128, h / 8);
    }
  }

  /** main with each declaration taking its panel's window of the packing. */
  method ConvertWindowed(im: Image) returns (r: Option<seq<string>>)
    ensures r.None? <==> !Covers(im)
    ensures r.Some? ==> var out := Packed(Inverted(im), 128, 8);
      |out| == 1024 &&
      r.value == [DefinitionText(Window(out, 96, 16), 96, 16), DefinitionText(Window(out, 128, 32), 128, 32),
                  DefinitionText(Window(out, 128, 64), 128, 64)]
  {
    var m := MakeMatrix(im);
    if m.None? {
      return None;
    }
    var bits := m.value;
    assert |bits| == 64 && |bits[0]| == 128;
    var v := VerticalBytes(bits);
    assert !Overhang(bits);
    var out := v.value;
    PackedLength(bits, 128, 8);
    assert |out| == 1024;
    var small := ArrayDefinition(Window(out, 96, 16), 96, 16);
    var half := ArrayDefinition(Window(out, 128, 32), 128, 32);
    var full := ArrayDefinition(Window(out, 128, 64), 128, 64);
    r := Some([small, half, full]);
  }

  /** Every panel's declaration, windowed, lights exactly the dark pixels of the image's
      top-left corner. */
  lemma WindowedSplashShowsImage(im: Image, w: int, h: int)
    requires Covers(im)
    requires Geometry(w, h) && w <= 128 && h <= 64
    ensures var out := Packed(Inverted(im), 128, 8);
      |out| == 1024 && Sized(Window(out, w, h), w, h) &&
      forall x, y | 0 <= x < w && 0 <= y < h :: Lit(Window(out, w, h), w, h, x, y) == (im[y][x] == 0)
  {
    DarkPixelsLit(im);
    WindowShowsCorner(Packed(Inverted(im), 128, 8), w, h);
  }
}
