/** The splash-image packer splash/make_splash.py: a grayscale image, already resized to
    each panel size, is thresholded to black and white, packed into vertical bytes and
    printed as a PROGMEM C array initialiser, sixteen "0xHH" tokens to a line. */
module Splash {
  import opened Profiles
  import opened FrameBuffer
  import opened Literals
  import opened Packing

  // ---------------------------------------------------------------------------
  // Thresholding (apply_thresh, applied with im.point)

  /** Pixels darker than 0x20 become black (0x00), all others white (0xFF). */
  function Threshold(p: int): (r: int)
    ensures r == 0x00 || r == 0xFF
    ensures r == 0x00 <==> p < 0x20
  {
    if p < 0x20 then 0x00 else 0xFF
  }

  /** Thresholding is monotone and thresholding twice changes nothing. */
  lemma ThresholdMonotone(p: int, q: int)
    requires p <= q
    ensures Threshold(p) <= Threshold(q)
    ensures Threshold(Threshold(p)) == Threshold(p)
  {
  }

  function Thresholded(im: Image): (r: Image)
    ensures |r| == |im| && forall y | 0 <= y < |im| :: |r[y]| == |im[y]|
  {
    seq(|im|, y requires 0 <= y < |im| => seq(|im[y]|, x requires 0 <= x < |im[y]| => Threshold(im[y][x])))
  }

  // ---------------------------------------------------------------------------
  // verticalBytes

  lemma Snoc(p: seq<Byte>, band: seq<Byte>, i: nat)
    requires i < |band|
    ensures p + band[..i] + [band[i]] == p + band[..i + 1]
  {
    assert band[..i + 1] == band[..i] + [band[i]];
  }

  /** Packs the image into bytes band by band, column by column; bit jbit of a byte is the
      pixel jbit rows below the top of its band. Rows past the last whole band are not
      packed. */
  method VerticalBytes(im: Image, width: nat, height: nat) returns (out: seq<Byte>)
    requires Rect(im, width, height)
    ensures out == Packed(im, width, height / 8)
  {
    out := [];
    for j := 0 to height / 8
      invariant out == Packed(im, width, j)
    {
      for i := 0 to width
        invariant out == Packed(im, width, j) + Band(im, width, j)[..i]
      {
        var byte: Byte := 0;
        for jbit := 0 to 8
          invariant byte == StripByte(im, i, j, jbit)
        {
          if im[j * 8 + jbit][i] != 0 {
            byte := byte | ((1 as Byte) << jbit);
          }
        }
        Snoc(Packed(im, width, j), Band(im, width, j), i);
        out := out + [byte];
      }
      assert Band(im, width, j)[..width] == Band(im, width, j);
    }
  }

  /** The packed threshold image lights, at drawPixel's place for each pixel, exactly the
      pixels of the grayscale image that are 0x20 or brighter. */
  lemma SplashShowsImage(im: Image, w: int, h: int)
    requires Rect(im, w, h) && Geometry(w, h)
    ensures Sized(Packed(Thresholded(im), w, h / 8), w, h)
    ensures forall x, y | 0 <= x < w && 0 <= y < h ::
      Lit(Packed(Thresholded(im), w, h / 8), w, h, x, y) == (im[y][x] >= 0x20)
  {
    PackedShowsImage(Thresholded(im), w, h);
  }

  // ---------------------------------------------------------------------------
  // arrayDefinition

  /** name_format.format(w, h) for the default name format. */
  function DefaultName(w: nat, h: nat): string
  {
    "Adafruit_SSD1306_" + Decimal(w) + "x" + Decimal(h) + "::splash"
  }

  function ArrayHeader(name: string, w: nat, h: nat): string
  {
    "const uint8_t PROGMEM " + name + "[" + Decimal(w) + " * " + Decimal(h) + " / 8] = {\n"
  }

  const LINE_BREAK := "\n  "

  /** The declaration: header, a two-space indent, then the tokens of the first
      (h / 8) * w bytes sixteen to a line and the closing brace; with no bytes, nothing
      follows the indent. */
  function ArrayText(name: string, w: nat, h: nat, out: seq<Byte>): string
    requires (h / 8) * w <= |out|
  {
    var n := (h / 8) * w;
    ArrayHeader(name, w, h) + "  " + (if n == 0 then "" else Listed(out, n, LINE_BREAK) + "};\n")
  }

  /** What the declaration holds after the first c of n tokens have been written. */
  function Emitted(out: seq<Byte>, c: nat, n: nat): string
    requires c <= n <= |out|
  {
    if c < n || n == 0 then ListedBefore(out, c, LINE_BREAK) else Listed(out, n, LINE_BREAK) + "};\n"
  }

  lemma CellBelow(j: int, i: int, w: int, rows: int)
    requires 0 <= j < rows && 0 <= i < w
    ensures 0 <= j * w + i < rows * w
  {
    MulLe(j + 1, rows, w);
  }

  lemma NextRow(j: int, w: int, rows: int)
    requires 0 <= j < rows && 0 <= w
    ensures j * w + w == (j + 1) * w <= rows * w
  {
    MulLe(j + 1, rows, w);
  }

  lemma Append2(p: string, a: string, b: string)
    ensures p + a + b == p + (a + b)
  {
  }

  /** Writing one line of m tokens from token c on, and what follows it. */
  lemma EmitLine(prefix: string, out: seq<Byte>, all: seq<string>, c: nat, m: nat, n: nat, sep: string)
    requires LinePos(c) == 0 && 1 <= m <= 16 && c + m <= n <= |out| && n == |all|
    requires forall k | 0 <= k < n :: all[k] == Hex2(out[k])
    requires m == 16 || c + m == n
    requires sep == if c + m < n then "," + LINE_BREAK else "};\n"
    ensures prefix + Emitted(out, c, n) + Join(all[c..c + m]) + sep == prefix + Emitted(out, c + m, n)
  {
    JoinedLine(out, all, c, m, LINE_BREAK);
    Append2(prefix, Emitted(out, c, n), Join(all[c..c + m]));
    Append2(prefix, ListedBefore(out, c, LINE_BREAK) + Join(all[c..c + m]), sep);
    if c + m < n {
      assert LinePos(c + m) == 0;
    }
  }

  lemma EmptyPrefix(s: string)
    ensures "" + s == s
  {
  }

  /** After the last line, the declaration is the whole text. */
  lemma WholeText(name: string, w: nat, h: nat, out: seq<Byte>, prefix: string)
    requires (h / 8) * w <= |out| && prefix == ArrayHeader(name, w, h) + "  "
    ensures ArrayText(name, w, h, out) == prefix + Emitted(out, (h / 8) * w, (h / 8) * w)
  {
  }

  lemma DropLine(all: seq<string>, bytes: seq<string>, c: nat, m: nat)
    requires c <= |all| && bytes == all[c..] && m <= |bytes|
    ensures bytes[..m] == all[c..c + m] && bytes[m..] == all[c + m..]
  {
  }

  /** Writes the declaration of the first (h / 8) * w bytes of out under the given name. */
  method ArrayDefinition(out: seq<Byte>, name: string, w: nat, h: nat) returns (decl: string)
    requires (h / 8) * w <= |out|
    ensures decl == ArrayText(name, w, h, out)
  {
    decl := "";
    decl := decl + ArrayHeader(name, w, h);
    EmptyPrefix(ArrayHeader(name, w, h));
    var rowGroups := h / 8;
    var bytes: seq<string> := [];
    for rowGroup := 0 to rowGroups
      invariant |bytes| == rowGroup * w <= |out|
      invariant forall k | 0 <= k < |bytes| :: bytes[k] == Hex2(out[k])
    {
      for col := 0 to w
        invariant |bytes| == rowGroup * w + col <= |out|
        invariant forall k | 0 <= k < |bytes| :: bytes[k] == Hex2(out[k])
      {
        CellBelow(rowGroup, col, w, rowGroups);
        bytes := bytes + [Hex2(out[rowGroup * w + col])];
      }
      NextRow(rowGroup, w, rowGroups);
    }
    ghost var n := |bytes|;
    ghost var all := bytes;
    ghost var consumed := 0;
    ghost var prefix := decl + "  ";
    decl := decl + "  ";
    while |bytes| > 0
      invariant (LinePos(consumed) == 0 || consumed == n) && consumed <= n && bytes == all[consumed..]
      invariant decl == prefix + Emitted(out, consumed, n)
      decreases |bytes|
    {
      var m := if |bytes| < 16 then |bytes| else 16;
      DropLine(all, bytes, consumed, m);
      decl := decl + Join(bytes[..m]);
      bytes := bytes[m..];
      if |bytes| > 0 {
        decl := decl + ",\n  ";
        EmitLine(prefix, out, all, consumed, m, n, ",\n  ");
      } else {
        decl := decl + "};\n";
        EmitLine(prefix, out, all, consumed, m, n, "};\n");
      }
      consumed := consumed + m;
    }
    assert consumed == n == (h / 8) * w;
    WholeText(name, w, h, out, prefix);
  }

  /** The declaration holds the header, the indent, the tokens and the closing brace; read
      at their offsets, the tokens give back the first (h / 8) * w bytes in order. */
  lemma ArrayTextReadsBack(name: string, w: nat, h: nat, out: seq<Byte>)
    requires 1 <= (h / 8) * w <= |out|
    ensures ArrayText(name, w, h, out)[..|ArrayHeader(name, w, h)| + 2] == ArrayHeader(name, w, h) + "  "
    ensures ArrayText(name, w, h, out)[|ArrayText(name, w, h, out)| - 3..] == "};\n"
    ensures forall k | 0 <= k < (h / 8) * w ::
      var text, start := ArrayText(name, w, h, out), |ArrayHeader(name, w, h)| + 2;
      TokenOffset(k, |LINE_BREAK|) + 4 <= |text| - start && TokenValue(text[start..], k, |LINE_BREAK|) == out[k] as int
  {
    var n := (h / 8) * w;
    var head, body := ArrayHeader(name, w, h) + "  ", Listed(out, n, LINE_BREAK);
    ListedReadsBack(out, n, LINE_BREAK);
    assert ArrayText(name, w, h, out) == head + (body + "};\n");
    TokensFramed(head, body, "};\n", out, n, |LINE_BREAK|);
  }

  /** The tokens of a list read back the same once the list is framed by a head and a tail. */
  lemma TokensFramed(head: string, body: string, tail: string, out: seq<Byte>, n: nat, breakLength: nat)
    requires 1 <= n <= |out| && |tail| == 3 && breakLength >= 1
    requires |body| == TokenOffset(n - 1, breakLength) + 4
    requires forall k | 0 <= k < n ::
      TokenOffset(k, breakLength) + 4 <= |body| && TokenValue(body, k, breakLength) == out[k] as int
    ensures var text := head + (body + tail);
      text[..|head|] == head &&
      text[|text| - 3..] == tail &&
      forall k | 0 <= k < n ::
        TokenOffset(k, breakLength) + 4 <= |text| - |head| && TokenValue(text[|head|..], k, breakLength) == out[k] as int
  {
    var text := head + (body + tail);
    assert text[|head|..] == body + tail;
    forall k | 0 <= k < n
      ensures TokenOffset(k, breakLength) + 4 <= |text| - |head|
      ensures TokenValue(text[|head|..], k, breakLength) == out[k] as int
    {
      var o := TokenOffset(k, breakLength);
      assert (body + tail)[o..o + 4] == body[o..o + 4];
    }
  }

  // ---------------------------------------------------------------------------
  // bitmapDefinition

  /** The comment text for pixel i of a row holding value v: "B" before each group of
      eight, the pixel as "1" or "0", and "," after each group of eight. */
  function Cell(v: int, i: nat): string
  {
    (if GroupPos(i) == 0 then "B" else "") + (if v != 0 then "1" else "0") + (if GroupPos(i) == 7 then "," else "")
  }

  /** The place of pixel i in its group of eight; it is i % 8, which is i & 7 (GroupPosIsMod). */
  function GroupPos(i: nat): nat
  {
    if i < 8 then i else GroupPos(i - 8)
  }

  lemma {:induction false} GroupPosIsMod(i: nat)
    ensures GroupPos(i) == i % 8
  {
    if i >= 8 {
      GroupPosIsMod(i - 8);
    }
  }

  function Cells(row: seq<int>, n: nat): string
    requires n <= |row|
  {
    if n == 0 then "" else Cells(row, n - 1) + Cell(row[n - 1], n - 1)
  }

  function Line(row: seq<int>, w: nat): string
    requires w <= |row|
  {
    "//  " + Cells(row, w) + "\n"
  }

  /** The comment lines for the first `rows` rows of the image. */
  function BitmapText(im: Image, w: nat, h: nat, rows: nat): string
    requires Rect(im, w, h) && rows <= h
  {
    if rows == 0 then "" else BitmapText(im, w, h, rows - 1) + Line(im[rows - 1], w)
  }

  lemma Append3(p: string, a: string, b: string, c: string)
    ensures p + a + b + c == p + (a + b + c)
  {
  }

  /** Appending pixel i's pieces to the text of the cells before it gives the cells up to
      and including pixel i. */
  lemma CellsStep(prefix: string, cellStart: string, row: seq<int>, i: nat, b: string, d: string, c: string)
    requires i < |row| && cellStart == prefix + Cells(row, i)
    requires b == (if GroupPos(i) == 0 then "B" else "") && d == (if row[i] != 0 then "1" else "0")
    requires c == (if GroupPos(i) == 7 then "," else "")
    ensures cellStart + b + d + c == prefix + Cells(row, i + 1)
  {
    Append3(cellStart, b, d, c);
    Append2(prefix, Cells(row, i), Cell(row[i], i));
  }

  /** Writes the image as comment lines of "1" and "0", one line per row. */
  method BitmapDefinition(im: Image, width: nat, height: nat) returns (decl: string)
    requires Rect(im, width, height)
    ensures decl == BitmapText(im, width, height, height)
  {
    decl := "";
    for j := 0 to height
      invariant decl == BitmapText(im, width, height, j)
    {
      ghost var before := decl;
      decl := decl + "//  ";
      for i := 0 to width
        invariant decl == before + "//  " + Cells(im[j], i)
      {
        ghost var cellStart := decl;
        ghost var b, d, c := if GroupPos(i) == 0 then "B" else "", if im[j][i] != 0 then "1" else "0", if GroupPos(i) == 7 then "," else "";
        GroupPosIsMod(i);
        if i % 8 == 0 {
          decl := decl + "B";
        }
        if im[j][i] != 0 {
          decl := decl + "1";
        } else {
          decl := decl + "0";
        }
        if i % 8 == 7 {
          decl := decl + ",";
        }
        assert decl == cellStart + b + d + c;
        CellsStep(before + "//  ", cellStart, im[j], i, b, d, c);
      }
      decl := decl + "\n";
      Append2(before, "//  " + Cells(im[j], width), "\n");
      Append2(before, "//  ", Cells(im[j], width));
    }
  }

  /** The "0" and "1" characters of s, in order. */
  function Digits(s: string): string
  {
    if |s| == 0 then "" else Digits(s[..|s| - 1]) + (if s[|s| - 1] == '0' || s[|s| - 1] == '1' then [s[|s| - 1]] else "")
  }

  lemma {:induction false} DigitsAppend(a: string, b: string)
    ensures Digits(a + b) == Digits(a) + Digits(b)
    decreases |b|
  {
    if |b| > 0 {
      var b' := b[..|b| - 1];
      assert (a + b)[..|a + b| - 1] == a + b';
      DigitsAppend(a, b');
    } else {
      assert a + b == a;
    }
  }

  /** The digit for a pixel value. */
  function PixelDigit(v: int): char
  {
    if v != 0 then '1' else '0'
  }

  /** A string of at most one character that is neither "0" nor "1" has no digits. */
  lemma NoDigits(s: string)
    requires |s| <= 1 && forall k | 0 <= k < |s| :: s[k] != '0' && s[k] != '1'
    ensures Digits(s) == ""
  {
    if |s| == 1 {
      assert s[..0] == "";
    }
  }

  /** Text without digits on either side adds no digits. */
  lemma Framed(b: string, d: string, c: string)
    requires Digits(b) == "" && Digits(c) == ""
    ensures Digits(b + d + c) == Digits(d)
  {
    DigitsAppend(b, d);
    DigitsAppend(b + d, c);
  }

  lemma CellDigit(v: int, i: nat)
    ensures Digits(Cell(v, i)) == [PixelDigit(v)]
  {
    var b, d, c := if GroupPos(i) == 0 then "B" else "", [PixelDigit(v)], if GroupPos(i) == 7 then "," else "";
    NoDigits(b);
    NoDigits(c);
    Framed(b, d, c);
    assert Digits(d) == d by {
      assert d[..0] == "";
    }
  }

  /** The digits of a row's cells are its pixels, left to right. */
  lemma {:induction false} CellsDigits(row: seq<int>, n: nat)
    requires n <= |row|
    ensures |Digits(Cells(row, n))| == n
    ensures forall x | 0 <= x < n :: Digits(Cells(row, n))[x] == PixelDigit(row[x])
  {
    if n > 0 {
      CellsDigits(row, n - 1);
      var prev, cur := Digits(Cells(row, n - 1)), Digits(Cells(row, n));
      DigitsAppend(Cells(row, n - 1), Cell(row[n - 1], n - 1));
      CellDigit(row[n - 1], n - 1);
      assert cur == prev + [PixelDigit(row[n - 1])];
      forall x | 0 <= x < n
        ensures cur[x] == PixelDigit(row[x])
      {
        if x < n - 1 {
          assert cur[x] == prev[x];
        }
      }
    }
  }

  lemma LineDigits(row: seq<int>, w: nat)
    requires w <= |row|
    ensures Digits(Line(row, w)) == Digits(Cells(row, w))
  {
    DigitsAppend("//  ", Cells(row, w));
    DigitsAppend("//  " + Cells(row, w), "\n");
    assert Digits("//  ") == "" by {
      assert Digits("/") == "";
      assert Digits("//") == Digits("/") + "";
      assert Digits("//  "[..3]) == Digits("//") + "";
    }
    assert Digits("\n") == "" by {
      assert "\n"[..0] == "";
    }
  }

  /** s, read as rows of w digits, holds the first `rows` rows of the image: digit
      y * w + x is "1" exactly when pixel (x, y) is nonzero. */
  predicate ReadsAsRows(s: string, im: Image, w: nat, rows: nat)
    requires rows <= |im| && forall y | 0 <= y < rows :: w <= |im[y]|
  {
    |s| == rows * w &&
    forall y, x | 0 <= y < rows && 0 <= x < w :: 0 <= y * w + x < rows * w && s[y * w + x] == PixelDigit(im[y][x])
  }

  /** The bitmap's digits, read row after row, are the image's pixels. */
  lemma {:induction false} BitmapDigits(im: Image, w: nat, h: nat, rows: nat)
    requires Rect(im, w, h) && rows <= h
    ensures ReadsAsRows(Digits(BitmapText(im, w, h, rows)), im, w, rows)
  {
    if rows > 0 {
      var r := rows - 1;
      BitmapDigits(im, w, h, r);
      var prev, line := Digits(BitmapText(im, w, h, r)), Digits(Line(im[r], w));
      assert Digits(BitmapText(im, w, h, rows)) == prev + line by {
        DigitsAppend(BitmapText(im, w, h, r), Line(im[r], w));
      }
      LineDigits(im[r], w);
      CellsDigits(im[r], w);
      RowsAppend(im, w, r, prev, line);
    }
  }

  /** Digits of rows 0 .. r - 1 followed by the digits of row r are the digits of rows
      0 .. r. */
  lemma RowsAppend(im: Image, w: nat, r: nat, prev: string, line: string)
    requires r < |im| && forall y | 0 <= y <= r :: w <= |im[y]|
    requires ReadsAsRows(prev, im, w, r) && |line| == w
    requires forall x | 0 <= x < w :: line[x] == PixelDigit(im[r][x])
    ensures ReadsAsRows(prev + line, im, w, r + 1)
  {
    assert (r + 1) * w == r * w + w;
    forall y, x | 0 <= y < r + 1 && 0 <= x < w
      ensures 0 <= y * w + x < (r + 1) * w && (prev + line)[y * w + x] == PixelDigit(im[y][x])
    {
      if y < r {
        CellBelow(y, x, w, r);
      } else {
        assert y * w + x == r * w + x;
      }
    }
  }

  // ---------------------------------------------------------------------------
  // main

  /** The panel sizes, in the order their declarations are printed. */
  const SIZES: seq<(nat, nat)> := [(96, 16), (128, 32), (128, 64)]

  /** main's loop over the sizes: the image resized to each size (resized[k]) is
      thresholded, packed and printed under names[k], the name format applied to that size
      (DefaultName unless another format is given). */
  method Generate(resized: seq<Image>, names: seq<string>) returns (printed: seq<string>)
    requires |resized| == |SIZES| && |names| == |SIZES|
    requires forall k | 0 <= k < |SIZES| :: Rect(resized[k], SIZES[k].0, SIZES[k].1)
    ensures |printed| == |SIZES|
    ensures forall k | 0 <= k < |SIZES| ::
      var (w, h) := SIZES[k];
      PackedLengthOk(Thresholded(resized[k]), w, h) &&
      printed[k] == ArrayText(names[k], w, h, Packed(Thresholded(resized[k]), w, h / 8))
  {
    printed := [];
    for k := 0 to |SIZES|
      invariant |printed| == k
      invariant forall j | 0 <= j < k ::
        var (w, h) := SIZES[j];
        PackedLengthOk(Thresholded(resized[j]), w, h) &&
        printed[j] == ArrayText(names[j], w, h, Packed(Thresholded(resized[j]), w, h / 8))
    {
      var (w, h) := SIZES[k];
      var im := Thresholded(resized[k]);
      var out := VerticalBytes(im, w, h);
      PackedLength(im, w, h / 8);
      var decl := ArrayDefinition(out, names[k], w, h);
      printed := printed + [decl];
    }
  }

  /** Under the default name format, the array symbol of each size, in SIZES order: the
      names the driver's splash buffers are declared under. */
  const DEFAULT_SYMBOLS: seq<string> :=
    ["Adafruit_SSD1306_96x16::splash", "Adafruit_SSD1306_128x32::splash", "Adafruit_SSD1306_128x64::splash"]

  /** The size expression and opening brace after each symbol. */
  const DEFAULT_EXTENTS: seq<string> := ["[96 * 16 / 8] = {\n", "[128 * 32 / 8] = {\n", "[128 * 64 / 8] = {\n"]

  lemma SizeDecimals()
    ensures Decimal(16) == "16" && Decimal(32) == "32" && Decimal(64) == "64"
    ensures Decimal(96) == "96" && Decimal(128) == "128"
  {
  }

  /** The default name format applied to each size gives that size's symbol. */
  lemma DefaultSymbols(k: nat)
    requires k < |SIZES|
    ensures DefaultName(SIZES[k].0, SIZES[k].1) == DEFAULT_SYMBOLS[k]
  {
    SizeDecimals();
  }

  lemma DefaultExtents(k: nat)
    requires k < |SIZES|
    ensures "[" + Decimal(SIZES[k].0) + " * " + Decimal(SIZES[k].1) + " / 8] = {\n" == DEFAULT_EXTENTS[k]
  {
    SizeDecimals();
    if k == 0 {
      assert "[" + "96" + " * " + "16" + " / 8] = {\n" == "[96 * 16 / 8] = {\n";
    } else if k == 1 {
      assert "[" + "128" + " * " + "32" + " / 8] = {\n" == "[128 * 32 / 8] = {\n";
    } else {
      assert "[" + "128" + " * " + "64" + " / 8] = {\n" == "[128 * 64 / 8] = {\n";
    }
  }

  /** A declaration opens with its header line. */
  lemma ArrayTextOpens(name: string, w: nat, h: nat, out: seq<Byte>)
    requires (h / 8) * w <= |out|
    ensures var text := ArrayText(name, w, h, out);
      var head := ("const uint8_t PROGMEM " + name) + ("[" + Decimal(w) + " * " + Decimal(h) + " / 8] = {\n");
      |head| <= |text| && text[..|head|] == head
  {
    var text := ArrayText(name, w, h, out);
    var head := ArrayHeader(name, w, h);
    assert text == head + text[|head|..];
  }

  /** With the default name format (names[k] == DefaultName of SIZES[k] in Generate), the
      declaration printed for size k opens with the driver's symbol for that size, e.g.
      "const uint8_t PROGMEM Adafruit_SSD1306_96x16::splash[96 * 16 / 8] = {". */
  lemma DefaultDeclarationOpens(k: nat, out: seq<Byte>)
    requires k < |SIZES| && (SIZES[k].1 / 8) * SIZES[k].0 <= |out|
    ensures var (w, h) := SIZES[k];
      var text := ArrayText(DefaultName(w, h), w, h, out);
      var head := "const uint8_t PROGMEM " + DEFAULT_SYMBOLS[k] + DEFAULT_EXTENTS[k];
      |head| <= |text| && text[..|head|] == head
  {
    var (w, h) := SIZES[k];
    DefaultSymbols(k);
    DefaultExtents(k);
    ArrayTextOpens(DefaultName(w, h), w, h, out);
  }

  /** The packing of an image has room for all (h / 8) * w bytes. */
  predicate PackedLengthOk(im: Image, w: nat, h: nat)
  {
    (h / 8) * w <= |Packed(im, w, h / 8)|
  }
}
