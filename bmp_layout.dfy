/** The byte layout behind simple-bmp-lib: the RGB packing macro of
    simple-bmp-lib/bmplib.h:12 and the sizes, headers and addresses that
    simple-bmp-lib/bmplib.c computes for a device-independent bitmap of the
    Windows BMP format: a 40-byte BITMAPINFOHEADER, the palette, the pixel
    rows stored bottom up, the AND mask of an icon, and the 14-byte
    BITMAPFILEHEADER in front of a file. `pow(2.0, b)` and `ceil(n / d)` are
    written as their exact integer values. */
module BmpLayout {
  import opened Words

  const INFO_HEADER_SIZE: nat := 0x28
  const FILE_HEADER_SIZE: nat := 0x0E
  /** `'B' 'M'` read as a little-endian 16-bit word. */
  const SIGNATURE: u16 := 0x4D42

  // ---- colours --------------------------------------------------------------

  /** `RGB(red, green, blue)` on 32-bit operands: blue, green shifted left by
      8 and red shifted left by 16 (each shift in 32 bits), OR-ed together and
      masked to 24 bits. */
  function Rgb(red: u32, green: u32, blue: u32): (c: u32)
    ensures c < 0x100_0000
  {
    BitOr(BitOr(blue, Wrap(green * Pow2(8))), Wrap(red * Pow2(16))) % 0x100_0000
  }

  lemma Pow2Bytes()
    ensures Pow2(8) == 0x100 && Pow2(16) == 0x1_0000
  {
    assert Pow2(8) == 0x100;
    Pow2Add(8, 8);
  }

  /** With byte-sized components, blue is bits 0-7, green bits 8-15 and red
      bits 16-23, so the colour's bytes, low first, give the components back. */
  lemma RgbBytes(red: byte, green: byte, blue: byte)
    ensures Rgb(red, green, blue) == blue + 0x100 * green + 0x1_0000 * red
    ensures Le32(Rgb(red, green, blue)) == [blue, green, red, 0]
  {
    Pow2Bytes();
    var g, r := green * 0x100, red * 0x1_0000;
    assert green * Pow2(8) == g && red * Pow2(16) == r;
    WrapSmall(g);
    WrapSmall(r);
    BitOrDisjoint(blue, green, 8);
    var low := blue + g;
    assert BitOr(blue, g) == low;
    BitOrDisjoint(low, red, 16);
    var c := low + r;
    assert BitOr(low, r) == c;
    var t := BitOr(BitOr(blue, Wrap(green * Pow2(8))), Wrap(red * Pow2(16)));
    assert t == c;
    assert Rgb(red, green, blue) == t % 0x100_0000;
    SmallMod(c, 0x100_0000);
    BytesOf(blue, green, red);
  }

  /** The little-endian bytes of a three-byte value. */
  lemma BytesOf(b0: byte, b1: byte, b2: byte)
    ensures Le32(b0 + 0x100 * b1 + 0x1_0000 * b2) == [b0, b1, b2, 0]
  {
    var c := b0 + 0x100 * b1 + 0x1_0000 * b2;
    assert c / 0x100 == b1 + 0x100 * b2;
    assert c / 0x1_0000 == b2;
  }

  // ---- depths and sizes -----------------------------------------------------

  /** The colour depths `CreateBitmap` accepts. */
  predicate IsDepth(bits: u32) {
    bits == 1 || bits == 4 || bits == 8 || bits == 24 || bits == 32
  }

  /** The depths whose pixels are palette indices. */
  predicate Paletted(bits: u32) {
    bits == 1 || bits == 4 || bits == 8
  }

  /** `(uint32_t) pow(2.0, bits)`: exact below 32 bits; beyond, C leaves the
      conversion undefined and the model takes the low 32 bits of 2^bits. */
  function ColorCount(bits: nat): u32 {
    Wrap(Pow2(bits))
  }

  /** A palette entry per value of a pixel; the 32-bit depth gets none. */
  lemma ColorCounts()
    ensures ColorCount(1) == 2 && ColorCount(4) == 16 && ColorCount(8) == 0x100
    ensures ColorCount(24) == 0x100_0000 && ColorCount(32) == 0
  {
    assert Pow2(8) == 0x100;
    assert Pow2(16) == 0x100 * Pow2(8) by { Pow2Add(8, 8); }
    assert Pow2(24) == 0x100 * Pow2(16) by { Pow2Add(8, 16); }
    assert Pow2(32) == 0x100 * Pow2(24) by { Pow2Add(8, 24); }
  }

  /** `x += 4 - x % 4` when `x % 4 != 0`: the next multiple of four. */
  function Align4(x: nat): (r: nat)
    ensures r % 4 == 0 && x <= r < x + 4
  {
    if x % 4 != 0 then x + (4 - x % 4) else x
  }

  /** `ceil(n / d)`. */
  function CeilDiv(n: nat, d: nat): nat
    requires d > 0
  {
    (n + d - 1) / d
  }

  /** XOR_size: the stored bytes of one pixel row at a paletted depth. The
      product `Width * BitCount` is a 32-bit product, as in the source. */
  function XorSize(width: u32, bits: u32): nat {
    var p := Wrap(width * bits);
    Align4(if p > 32 then CeilDiv(p, 8) else 4)
  }

  /** AND_size before `AndBmp` is consulted: one bit per pixel, padded. */
  function AndRow(width: u32): nat {
    Align4(if width > 32 then CeilDiv(width, 8) else 4)
  }

  /** AND_size: no mask rows unless the bitmap has a mask. */
  function AndSize(width: u32, andBmp: bool): nat {
    if andBmp then AndRow(width) else 0
  }

  /** The stored bytes of one pixel row at any depth: three bytes a pixel
      plus `Width % 4` bytes of padding at 24 bits, four bytes a pixel at 32. */
  function PixelRow(width: u32, bits: u32): nat {
    if bits == 24 then width * 3 + width % 4
    else if bits == 32 then width * 4
    else XorSize(width, bits)
  }

  /** The palette: four bytes a colour, at paletted depths only. */
  function PaletteBytes(bits: u32): nat {
    if Paletted(bits) then 4 * ColorCount(bits) else 0
  }

  /** sizeOfImage: the palette, the pixel rows and the mask rows. */
  function ImageSize(width: u32, height: u32, bits: u32, andBmp: bool): nat {
    PaletteBytes(bits) + Rows(height, PixelRow(width, bits)) + Rows(height, AndSize(width, andBmp))
  }

  /** `count` rows of `row` bytes (the product `count * row`, summed row by
      row so that the sizes stay linear arithmetic). */
  function Rows(count: nat, row: nat): nat {
    if count == 0 then 0 else Rows(count - 1, row) + row
  }

  /** One more row adds one row's bytes. */
  lemma RowsSucc(count: nat, row: nat)
    ensures Rows(count + 1, row) == Rows(count, row) + row
  {
  }

  /** More rows never take fewer bytes. */
  lemma {:induction false} RowsMono(a: nat, b: nat, row: nat)
    requires a <= b
    ensures Rows(a, row) <= Rows(b, row)
    decreases b
  {
    if a < b {
      RowsMono(a, b - 1, row);
    }
  }

  /** The rows are the product. */
  lemma {:induction false} RowsProduct(count: nat, row: nat)
    ensures Rows(count, row) == count * row
  {
    if count > 0 {
      RowsProduct(count - 1, row);
    }
  }

  /** A paletted row is four bytes when its bits fit 32, and otherwise the
      fewest whole 32-bit words that hold them. */
  lemma XorSizeHoldsRow(width: u32, bits: u32)
    requires width * bits < TWO32
    ensures var r := XorSize(width, bits);
            r % 4 == 0 && width * bits <= 8 * r
            && (width * bits <= 32 ==> r == 4)
            && (width * bits > 32 ==> r < CeilDiv(width * bits, 8) + 4)
  {
    var p := width * bits;
    WrapSmall(p);
    if p > 32 {
      var c := CeilDiv(p, 8);
      assert p <= 8 * c;
      assert XorSize(width, bits) == Align4(c);
    } else {
      assert XorSize(width, bits) == 4;
    }
  }

  /** The 24-bit row: `Width % 4` bytes of padding are exactly what makes
      three bytes a pixel a whole number of 32-bit words. */
  lemma Row24Aligned(width: u32)
    ensures (width * 3 + width % 4) % 4 == 0
    ensures width % 4 == (4 - width * 3 % 4) % 4
  {
    var q, m := width / 4, width % 4;
    assert width * 3 + m == 4 * (3 * q + m);
  }

  // ---- headers --------------------------------------------------------------

  /** The BITMAPINFOHEADER `CreateBitmap` writes: its own size 40, the width,
      the height (doubled for an icon's AND mask), one plane, the depth as a
      16-bit word, no compression, the image size and zero resolution and
      colour counts. */
  function InfoHeader(width: u32, height: u32, bits: u32, andBmp: bool, image: u32): (r: seq<byte>)
    ensures |r| == INFO_HEADER_SIZE
  {
    Le32(INFO_HEADER_SIZE) + Le32(width) + Le32(if andBmp then Wrap(2 * height) else height)
    + Le16(1) + Le16(bits % TWO16) + Le32(0) + Le32(image) + Fill(0, 16)
  }

  /** Every field of the info header reads back at its offset. */
  lemma InfoHeaderFields(width: u32, height: u32, bits: u32, andBmp: bool, image: u32, s: seq<byte>)
    requires |s| >= INFO_HEADER_SIZE && s[..INFO_HEADER_SIZE] == InfoHeader(width, height, bits, andBmp, image)
    ensures FromLe32(s) == INFO_HEADER_SIZE
    ensures FromLe32(s[0x04..]) == width
    ensures FromLe32(s[0x08..]) == if andBmp then Wrap(2 * height) else height
    ensures FromLe16(s[0x0C..]) == 1 && FromLe16(s[0x0E..]) == bits % TWO16
    ensures FromLe32(s[0x10..]) == 0 && FromLe32(s[0x14..]) == image
    ensures s[0x18..INFO_HEADER_SIZE] == Fill(0, 16)
  {
    var r := InfoHeader(width, height, bits, andBmp, image);
    var h := if andBmp then Wrap(2 * height) else height;
    assert r[0x00..0x04] == Le32(INFO_HEADER_SIZE);
    assert r[0x04..0x08] == Le32(width);
    assert r[0x08..0x0C] == Le32(h);
    assert r[0x0C..0x0E] == Le16(1);
    assert r[0x0E..0x10] == Le16(bits % TWO16);
    assert r[0x10..0x14] == Le32(0);
    assert r[0x14..0x18] == Le32(image);
    assert r[0x18..] == Fill(0, 16);
    ReadWord(s, 0x00, INFO_HEADER_SIZE);
    ReadWord(s, 0x04, width);
    ReadWord(s, 0x08, h);
    ReadWord(s, 0x10, 0);
    ReadWord(s, 0x14, image);
    assert s[0x0C..0x0E] == r[0x0C..0x0E] && s[0x0E..0x10] == r[0x0E..0x10];
    ReadHalf(s, 0x0C, 1);
    ReadHalf(s, 0x0E, bits % TWO16);
  }

  /** A word stored at `at` reads back from there. */
  lemma ReadWord(s: seq<byte>, at: nat, v: u32)
    requires at + 4 <= |s| && s[at..at + 4] == Le32(v)
    ensures FromLe32(s[at..]) == v
  {
    assert s[at..][..4] == s[at..at + 4];
    Le32ReadBack(s[at..], v);
  }

  /** A 16-bit word stored at `at` reads back from there. */
  lemma ReadHalf(s: seq<byte>, at: nat, v: u16)
    requires at + 2 <= |s| && s[at..at + 2] == Le16(v)
    ensures FromLe16(s[at..]) == v
  {
    assert s[at] == Le16(v)[0] && s[at + 1] == Le16(v)[1];
    Le16RoundTrip(v);
  }

  /** The BITMAPFILEHEADER `CreateBMPFile` writes: the signature, the file
      size, a reserved zero word and the offset of the pixel data. */
  function FileHeader(fileSize: u32, dataOffset: u32): (r: seq<byte>)
    ensures |r| == FILE_HEADER_SIZE
  {
    Le16(SIGNATURE) + Le32(fileSize) + Le32(0) + Le32(dataOffset)
  }

  /** The file header starts with the characters `B` and `M`, and its fields
      read back at offsets 2, 6 and 10. */
  lemma FileHeaderFields(fileSize: u32, dataOffset: u32, s: seq<byte>)
    requires |s| >= FILE_HEADER_SIZE && s[..FILE_HEADER_SIZE] == FileHeader(fileSize, dataOffset)
    ensures s[0] == 'B' as int && s[1] == 'M' as int
    ensures FromLe32(s[0x02..]) == fileSize && FromLe32(s[0x06..]) == 0 && FromLe32(s[0x0A..]) == dataOffset
  {
    var r := FileHeader(fileSize, dataOffset);
    assert r[0x02..0x06] == Le32(fileSize);
    assert r[0x06..0x0A] == Le32(0);
    assert r[0x0A..0x0E] == Le32(dataOffset);
    ReadWord(s, 0x02, fileSize);
    ReadWord(s, 0x06, 0);
    ReadWord(s, 0x0A, dataOffset);
  }

  /** The offset of the pixel data as `CreateBMPFile` writes it: behind both
      headers and `ColorCount` palette entries, whatever the depth. */
  function DataOffsetAsWritten(colorCount: u32): u32 {
    Wrap(FILE_HEADER_SIZE + INFO_HEADER_SIZE + colorCount * 4)
  }

  /** The offset of the pixel data: behind both headers and the palette,
      which only paletted depths have. */
  function DataOffset(bits: u32, colorCount: u32): u32 {
    Wrap(FILE_HEADER_SIZE + INFO_HEADER_SIZE + if Paletted(bits) then colorCount * 4 else 0)
  }

  /** At 24 bits `ColorCount` is 2^24, so the written offset points 64 MiB
      past the end of a one-pixel file. */
  lemma DataOffsetAsWrittenPastEnd()
    ensures var fileSize := FILE_HEADER_SIZE + INFO_HEADER_SIZE + ImageSize(1, 1, 24, false);
            fileSize == 58 && DataOffsetAsWritten(ColorCount(24)) == 0x36 + 0x400_0000
            && DataOffsetAsWritten(ColorCount(24)) > fileSize
  {
    ColorCounts();
  }

  /** The two offsets agree wherever there is a palette. */
  lemma DataOffsetAsWrittenPaletted(bits: u32, colorCount: u32)
    requires Paletted(bits)
    ensures DataOffset(bits, colorCount) == DataOffsetAsWritten(colorCount)
  {
  }

  /** The offset points at the first pixel: behind it lie exactly the pixel
      rows and the mask rows. */
  lemma DataOffsetStartsPixels(width: u32, height: u32, bits: u32, andBmp: bool)
    requires IsDepth(bits) && FILE_HEADER_SIZE + INFO_HEADER_SIZE + ImageSize(width, height, bits, andBmp) < TWO32
    ensures var offset := DataOffset(bits, ColorCount(bits));
            offset == FILE_HEADER_SIZE + INFO_HEADER_SIZE + PaletteBytes(bits)
            && FILE_HEADER_SIZE + INFO_HEADER_SIZE + ImageSize(width, height, bits, andBmp) - offset
               == Rows(height, PixelRow(width, bits)) + Rows(height, AndSize(width, andBmp))
  {
    ColorCounts();
    var pal := PaletteBytes(bits);
    assert pal <= 0x400 by {
      if bits == 1 {} else if bits == 4 {} else if bits == 8 {}
    }
    assert DataOffset(bits, ColorCount(bits)) == Wrap(FILE_HEADER_SIZE + INFO_HEADER_SIZE + pal);
    WrapSmall(FILE_HEADER_SIZE + INFO_HEADER_SIZE + pal);
  }

  // ---- pixel and mask addresses ---------------------------------------------

  /** How many bytes one pixel write touches. */
  function PixelWidth(bits: u32): nat {
    if bits == 24 then 3 else if bits == 32 then 4 else 1
  }

  /** Where pixel (x, y) lies, counted from 1 with row 1 on top: behind the
      header and palette, rows stored bottom up, each `PixelRow` bytes. A
      1-bit pixel is in byte `ceil(x / 8) - 1`, a 4-bit pixel in byte
      `ceil(x / 2) - 1`; deeper pixels take whole bytes. `SetPixel` writes
      here at paletted depths; at 24 and 32 bits this is the corrected
      address, with the row stride taken from the width. */
  function PixelByte(width: u32, height: u32, bits: u32, colorCount: u32, x: nat, y: nat): nat
    requires x >= 1 && y <= height
  {
    var nY := Rows(height - y, PixelRow(width, bits));
    if bits == 1 then INFO_HEADER_SIZE + colorCount * 4 + (CeilDiv(x, 8) - 1) + nY
    else if bits == 4 then INFO_HEADER_SIZE + colorCount * 4 + (CeilDiv(x, 2) - 1) + nY
    else if bits == 8 then INFO_HEADER_SIZE + colorCount * 4 + (x - 1) + nY
    else if bits == 24 then INFO_HEADER_SIZE + (x - 1) * 3 + nY
    else INFO_HEADER_SIZE + (x - 1) * 4 + nY
  }

  /** The 24- and 32-bit addresses as `SetPixel` computes them: the row
      stride is taken from the height instead of the width. */
  function PixelByteAsWritten(width: u32, height: u32, bits: u32, x: nat, y: nat): nat
    requires x >= 1 && y <= height && (bits == 24 || bits == 32)
  {
    if bits == 24 then INFO_HEADER_SIZE + (x - 1) * 3 + Rows(height - y, height * 3 + height % 4)
    else INFO_HEADER_SIZE + (x - 1) * 4 + Rows(height - y, height * 4)
  }

  /** A one-pixel-wide, two-pixel-high 24-bit bitmap is 48 bytes long, and
      the stride taken from the height puts its lower pixel at bytes 48-50. */
  lemma PixelByteAsWrittenOutside()
    ensures var size := INFO_HEADER_SIZE + ImageSize(1, 2, 24, false);
            size == 48 && PixelByteAsWritten(1, 2, 24, 1, 1) == 48
  {
  }

  /** The pixel SetPixel addresses last in the buffer at 24 and 32 bits is
      the top right one: every other pixel lies before it. */
  lemma AsWrittenBelowCorner(width: u32, height: u32, bits: u32, x: nat, y: nat)
    requires (bits == 24 || bits == 32) && 1 <= x <= width && 1 <= y <= height
    ensures PixelByteAsWritten(width, height, bits, x, y) <= PixelByteAsWritten(width, height, bits, width, 1)
  {
    RowsMono(height - y, height - 1, if bits == 24 then height * 3 + height % 4 else height * 4);
  }

  /** On a square or landscape bitmap the stride taken from the height is
      no longer than the real one, so every 24- and 32-bit pixel SetPixel
      addresses lies inside the pixel rows. */
  lemma AsWrittenInRowsLandscape(width: u32, height: u32, bits: u32)
    requires (bits == 24 || bits == 32) && 1 <= height <= width
    ensures PixelByteAsWritten(width, height, bits, width, 1) + PixelWidth(bits)
            <= INFO_HEADER_SIZE + Rows(height, PixelRow(width, bits))
  {
    var stride := if bits == 24 then height * 3 + height % 4 else height * 4;
    var row := PixelRow(width, bits);
    assert stride <= row by {
      if bits == 24 {
        var q, m, q', m' := height / 4, height % 4, width / 4, width % 4;
        assert height * 3 + m == 12 * q + 4 * m;
        assert width * 3 + m' == 12 * q' + 4 * m';
        assert q < q' || (q == q' && m <= m');
      }
    }
    RowsMonoRow(height - 1, stride, row);
    RowsSucc(height - 1, row);
  }

  /** Longer rows never take fewer bytes. */
  lemma {:induction false} RowsMonoRow(count: nat, row: nat, row': nat)
    requires row <= row'
    ensures Rows(count, row) <= Rows(count, row')
  {
    if count > 0 {
      RowsMonoRow(count - 1, row, row');
    }
  }

  /** Every pixel of the bitmap lies behind the palette and inside the pixel
      rows (at paletted depths provided `Width * BitCount` does not wrap). */
  lemma PixelInRows(width: u32, height: u32, bits: u32, x: nat, y: nat)
    requires IsDepth(bits) && 1 <= x <= width && 1 <= y <= height
    requires Paletted(bits) ==> width * bits < TWO32
    ensures var at := PixelByte(width, height, bits, ColorCount(bits), x, y);
            INFO_HEADER_SIZE + PaletteBytes(bits) <= at
            && at + PixelWidth(bits) <= INFO_HEADER_SIZE + PaletteBytes(bits) + Rows(height, PixelRow(width, bits))
  {
    var row := PixelRow(width, bits);
    ColumnInRow(width, bits, x);
    ColorCounts();
    RowsSucc(height - y, row);
    RowsMono(height - y + 1, height, row);
  }

  /** The bytes of pixel x lie inside one row. */
  lemma ColumnInRow(width: u32, bits: u32, x: nat)
    requires IsDepth(bits) && 1 <= x <= width
    requires Paletted(bits) ==> width * bits < TWO32
    ensures var col := if bits == 1 then CeilDiv(x, 8) - 1 else if bits == 4 then CeilDiv(x, 2) - 1
                       else (x - 1) * PixelWidth(bits);
            col + PixelWidth(bits) <= PixelRow(width, bits)
  {
    if bits == 4 {
      assert Wrap(width * 4) == width * 4;
    } else if bits == 8 {
      assert Wrap(width * 8) == width * 8;
    }
  }

  /** Where the mask bit of pixel (x, y) lies: the mask rows come last,
      bottom up, `AND_size` bytes each. This is the corrected address, with
      the row taken from the height. */
  function MaskByte(size: u32, width: u32, height: u32, x: nat, y: nat): int
    requires x >= 1 && y <= height
  {
    size - Rows(height, AndRow(width)) + (CeilDiv(x, 8) - 1) + Rows(height - y, AndRow(width))
  }

  /** The mask address as `MaskBitmap` computes it: the row index is taken
      from the width instead of the height. */
  function MaskByteAsWritten(size: u32, width: u32, height: u32, x: nat, y: int): int
    requires x >= 1
  {
    size - Rows(height, AndRow(width)) + (CeilDiv(x, 8) - 1) + Rows(Wrap(width - y), AndRow(width))
  }

  /** A two-pixel-wide, one-pixel-high 1-bit icon is 56 bytes long, and the
      row taken from the width sends its only pixel to byte 56. */
  lemma MaskByteAsWrittenOutside()
    ensures var size := INFO_HEADER_SIZE + ImageSize(2, 1, 1, true);
            size == 56 && MaskByteAsWritten(size, 2, 1, 1, 1) == 56
  {
    ColorCounts();
  }

  /** A one-pixel-wide, two-pixel-high 1-bit icon is 64 bytes long; for its
      top pixel `Width - y` wraps, and the 32-bit address lands on byte 52,
      among the pixel rows. */
  lemma MaskByteAsWrittenWraps()
    ensures var size := INFO_HEADER_SIZE + ImageSize(1, 2, 1, true);
            size == 64 && Wrap(MaskByteAsWritten(size, 1, 2, 1, 2)) == 52
            && 52 < INFO_HEADER_SIZE + PaletteBytes(1) + Rows(2, PixelRow(1, 1))
  {
    ColorCounts();
    RowsProduct(TWO32 - 1, 4);
    assert MaskByteAsWritten(64, 1, 2, 1, 2) == 56 + (TWO32 - 1) * 4;
  }

  /** Every pixel's mask bit lies inside the mask rows at the end. */
  lemma MaskInRows(size: u32, width: u32, height: u32, x: nat, y: nat)
    requires 1 <= x <= width && 1 <= y <= height && Rows(height, AndRow(width)) <= size
    ensures size - Rows(height, AndRow(width)) <= MaskByte(size, width, height, x, y) < size
  {
    var row := AndRow(width);
    RowsSucc(height - y, row);
    RowsMono(height - y + 1, height, row);
  }

  /** Where the row taken from the width names a real mask row, counted from
      the bottom (`y <= Width < y + Height`, which holds for every pixel of a
      square or portrait icon), `MaskBitmap` writes into the mask rows. */
  lemma MaskAsWrittenInRows(size: u32, width: u32, height: u32, x: nat, y: nat)
    requires 1 <= x <= width && 1 <= y <= width < y + height && Rows(height, AndRow(width)) <= size
    ensures size - Rows(height, AndRow(width)) <= MaskByteAsWritten(size, width, height, x, y) < size
  {
    var row := AndRow(width);
    WrapSmall(width - y);
    RowsSucc(width - y, row);
    RowsMono(width - y + 1, height, row);
  }

  /** The bit of a 1-bit pixel or a mask pixel within its byte: the leftmost
      pixel is the most significant bit. */
  function BitShift(x: nat): nat
    requires x >= 1
  {
    7 - (x - 1) % 8
  }

  // ---- pixel values ---------------------------------------------------------

  /** `b |= v` on a byte: the bits of the low byte of `v` are added. */
  function OrByte(b: byte, v: int): byte {
    Pow2Bytes();
    BitOrBelow(b, Low8(v), 8);
    BitOr(b, Low8(v))
  }

  /** `|=` sets the bits of the low byte of `v` and clears none. */
  lemma OrByteBits(b: byte, v: int, t: nat)
    ensures Bit(OrByte(b, v), t) <==> Bit(b, t) || Bit(Low8(v), t)
  {
    BitOrBit(b, Low8(v), t);
  }

  /** OR-ing `1 << BitShift(x)` into a byte sets exactly the bit of pixel x
      and keeps the others: a 1-bit pixel of colour 1, or a mask bit. */
  lemma SetsPixelBit(b: byte, x: nat, t: nat)
    requires x >= 1
    ensures Bit(OrByte(b, Pow2(BitShift(x))), t) <==> Bit(b, t) || t == BitShift(x)
  {
    SetsBit(b, BitShift(x), t);
  }

  /** OR-ing `1 << s` into a byte, for s below 8, sets bit s only. */
  lemma SetsBit(b: byte, s: nat, t: nat)
    requires s < 8
    ensures Bit(OrByte(b, Pow2(s)), t) <==> Bit(b, t) || t == s
  {
    Pow2Mono(s, 7);
    assert Pow2(7) == 0x80;
    Low8Small(Pow2(s));
    OrByteBits(b, Pow2(s), t);
    PowBit(s, t);
  }

  lemma {:induction false} Pow2Mono(a: nat, b: nat)
    requires a <= b
    ensures Pow2(a) <= Pow2(b)
    decreases b
  {
    if a < b {
      Pow2Mono(a, b - 1);
    }
  }

  /** A 4-bit colour OR-ed in at shift 4 (odd x) or 0 (even x) sets its bits
      in that nibble only. */
  lemma SetsNibble(b: byte, color: nat, shift: nat, t: nat)
    requires color < 16 && (shift == 0 || shift == 4)
    ensures Bit(OrByte(b, color * Pow2(shift)), t) <==> Bit(b, t) || (shift <= t && Bit(color, t - shift))
  {
    if shift == 0 {
      assert color * Pow2(shift) == color;
    } else {
      assert Pow2(4) == 16;
      assert color * Pow2(shift) == color * 16;
    }
    Low8Small(color * Pow2(shift));
    OrByteBits(b, color * Pow2(shift), t);
    ShiftBit(color, shift, t);
  }

  /** Bit t of `c << k` is bit `t - k` of c. */
  lemma {:induction false} ShiftBit(c: nat, k: nat, t: nat)
    ensures Bit(c * Pow2(k), t) <==> k <= t && Bit(c, t - k)
    decreases k
  {
    if k > 0 {
      if t == 0 {
        assert c * Pow2(k) == 2 * (c * Pow2(k - 1));
      } else {
        assert c * Pow2(k) == 2 * (c * Pow2(k - 1));
        assert (c * Pow2(k)) / 2 == c * Pow2(k - 1);
        ShiftBit(c, k - 1, t - 1);
      }
    }
  }

  /** The buffer after `SetPixel(x, y, color)` wrote at byte `at`: at 1 and
      4 bits the colour, shifted to the pixel's bits, is OR-ed into the byte;
      at 8 bits its low byte replaces it; at 24 and 32 bits the pixel's
      bytes are cleared; at any other depth nothing is written. */
  function PaintAt(b: seq<byte>, at: nat, bits: u32, x: nat, color: u32): (r: seq<byte>)
    requires x >= 1
    requires IsDepth(bits) ==> at + PixelWidth(bits) <= |b|
    ensures |r| == |b|
    ensures forall k :: 0 <= k < |b| && !(IsDepth(bits) && at <= k < at + PixelWidth(bits)) ==> r[k] == b[k]
  {
    if bits == 1 then b[at := OrByte(b[at], color * Pow2(BitShift(x)))]
    else if bits == 4 then b[at := OrByte(b[at], color * Pow2(if x % 2 == 1 then 4 else 0))]
    else if bits == 8 then b[at := Low8(color)]
    else if bits == 24 then Overwrite(b, at, [0, 0, 0])
    else if bits == 32 then Overwrite(b, at, [0, 0, 0, 0])
    else b
  }

  /** What a pixel write leaves in the pixel's bytes: a 1-bit pixel of
      colour 0 or 1 gets its bit set for colour 1 and keeps every other bit;
      a 4-bit colour is added to the high nibble for odd x and to the low
      nibble for even x, keeping the bits already there; an 8-bit pixel
      holds the low byte of the colour; 24- and 32-bit pixels are cleared. */
  lemma PaintAtPixel(b: seq<byte>, at: nat, bits: u32, x: nat, color: u32, t: nat)
    requires x >= 1 && IsDepth(bits) && at + PixelWidth(bits) <= |b|
    ensures var r := PaintAt(b, at, bits, x, color);
            bits == 1 && color < 2 ==> (Bit(r[at], t) <==> Bit(b[at], t) || (color == 1 && t == BitShift(x)))
    ensures var r := PaintAt(b, at, bits, x, color);
            var shift := if x % 2 == 1 then 4 else 0;
            bits == 4 && color < 16 ==> (Bit(r[at], t) <==> Bit(b[at], t) || (shift <= t && Bit(color, t - shift)))
    ensures bits == 8 ==> PaintAt(b, at, bits, x, color)[at] == Low8(color)
    ensures bits == 24 || bits == 32 ==> PaintAt(b, at, bits, x, color)[at..at + PixelWidth(bits)] == Fill(0, PixelWidth(bits))
  {
    if bits == 1 && color < 2 {
      if color == 1 {
        assert color * Pow2(BitShift(x)) == Pow2(BitShift(x));
        SetsPixelBit(b[at], x, t);
      } else {
        assert color * Pow2(BitShift(x)) == 0;
        Low8Small(0);
        OrByteBits(b[at], 0, t);
        ZeroBit(t);
      }
    }
    if bits == 4 && color < 16 {
      SetsNibble(b[at], color, if x % 2 == 1 then 4 else 0, t);
    }
  }

  /** The buffer after `SetPixel(x, y, color)`, the byte offset computed as
      a 32-bit sum, as in the source. */
  function Painted(b: seq<byte>, width: u32, height: u32, bits: u32, colorCount: u32, x: nat, y: nat, color: u32)
    : seq<byte>
    requires 1 <= x && y <= height
    requires Fits(|b|, width, height, bits, colorCount, x, y)
  {
    PaintAt(b, PixelAt(width, height, bits, colorCount, x, y), bits, x, color)
  }

  /** The bytes `SetPixel` writes for pixel (x, y) lie inside a buffer of
      `length` bytes (nothing is written at other depths). */
  predicate Fits(length: nat, width: u32, height: u32, bits: u32, colorCount: u32, x: nat, y: nat)
    requires 1 <= x && y <= height
  {
    IsDepth(bits) ==> PixelAt(width, height, bits, colorCount, x, y) + PixelWidth(bits) <= length
  }

  /** The buffer offset `SetPixel` writes at, in 32-bit arithmetic: the
      paletted address, or at 24 and 32 bits the address with the row
      stride taken from the height, as the source computes it. */
  function PixelAt(width: u32, height: u32, bits: u32, colorCount: u32, x: nat, y: nat): u32
    requires 1 <= x && y <= height
  {
    if bits == 24 || bits == 32 then Wrap(PixelByteAsWritten(width, height, bits, x, y))
    else Wrap(PixelByte(width, height, bits, colorCount, x, y))
  }

  /** Every pixel of a `width` by `height` bitmap fits a buffer of `length` bytes. */
  predicate AllFit(length: nat, width: u32, height: u32, bits: u32, colorCount: u32) {
    forall x: nat, y: nat :: 1 <= x <= width && 1 <= y <= height ==> Fits(length, width, height, bits, colorCount, x, y)
  }

  /** The buffer after `SetPixel(x, y, color)`, whatever its answer: points
      outside the bitmap leave it alone. */
  function Plot(b: seq<byte>, width: u32, height: u32, bits: u32, colorCount: u32, x: int, y: int, color: u32)
    : (r: seq<byte>)
    requires AllFit(|b|, width, height, bits, colorCount)
    ensures |r| == |b|
  {
    if 1 <= x <= width && 1 <= y <= height then Painted(b, width, height, bits, colorCount, x, y, color) else b
  }

  /** The buffer after `SetPixel` on each point of `points` in turn. */
  function Draw(b: seq<byte>, width: u32, height: u32, bits: u32, colorCount: u32, points: seq<(int, int)>, color: u32)
    : (r: seq<byte>)
    requires AllFit(|b|, width, height, bits, colorCount)
    ensures |r| == |b|
    decreases |points|
  {
    if points == [] then b
    else
      var last := points[|points| - 1];
      Plot(Draw(b, width, height, bits, colorCount, points[..|points| - 1], color), width, height, bits, colorCount,
           last.0, last.1, color)
  }
}
