/** The bitmap record of simple-bmp-lib and the operations that lay out its
    buffer, paint into it, read it back from memory and wrap it in a BMP file. */
module BmpLib {
  import opened Words
  import opened BmpLayout

  /** A C `int`. */
  type i32 = x: int | -0x8000_0000 <= x < 0x8000_0000

  /** How `CreateBitmap` ends: 0 with a laid-out buffer, 1 for a depth it
      does not support, or a layout whose byte count does not fit 32 bits
      (the source's size sum wraps there and its cursor runs past the buffer
      it allocated, which the model reports instead). */
  datatype Creation = Created | BadDepth | TooLarge

  /** Every byte from `from` on is zero. */
  ghost predicate ZeroFrom(s: seq<byte>, from: nat) {
    forall k :: from <= k < |s| ==> s[k] == 0
  }

  /** v lies between a and b, in either order. */
  predicate Between(a: int, v: int, b: int) {
    if a <= b then a <= v <= b else b <= v <= a
  }

  /** q is one of the eight neighbours of p. */
  predicate KingStep(p: (int, int), q: (int, int)) {
    p != q && -1 <= q.0 - p.0 <= 1 && -1 <= q.1 - p.1 <= 1
  }

  /** The points a line from (x1, y1) to (x2, y2) has painted so far, and
      the one it paints next: the end point comes first, then the start
      point and king's steps from it, all inside the rectangle the two
      points span. */
  ghost predicate LineWalk(path: seq<(int, int)>, x1: int, y1: int, x2: int, y2: int, next: (int, int)) {
    && |path| >= 1 && path[0] == (x2, y2)
    && Between(x1, next.0, x2) && Between(y1, next.1, y2)
    && (if |path| == 1 then next == (x1, y1) else path[1] == (x1, y1) && KingStep(path[|path| - 1], next))
    && (forall k :: 1 <= k < |path| ==> Between(x1, path[k].0, x2) && Between(y1, path[k].1, y2))
    && (forall k :: 1 <= k < |path| - 1 ==> KingStep(path[k], path[k + 1]))
  }

  /** Painting the next point and stepping to a neighbour inside the
      rectangle extends the walk. */
  lemma LineWalkGrows(path: seq<(int, int)>, x1: int, y1: int, x2: int, y2: int, p: (int, int), q: (int, int))
    requires LineWalk(path, x1, y1, x2, y2, p)
    requires KingStep(p, q) && Between(x1, q.0, x2) && Between(y1, q.1, y2)
    ensures LineWalk(path + [p], x1, y1, x2, y2, q)
  {
    var longer := path + [p];
    assert longer[|path|] == p;
    forall k | 1 <= k < |longer| - 1
      ensures KingStep(longer[k], longer[k + 1])
    {
      if k + 1 == |path| {
        assert longer[k] == path[|path| - 1];
      } else {
        assert longer[k] == path[k] && longer[k + 1] == path[k + 1];
      }
    }
  }

  /** Bresenham's error term after a steps along x and b along y of a line
      spanning dx by dy is `(b + 1) * dx - (a + 1) * dy`. Until both spans
      are walked it lets at least one coordinate advance, and never one
      whose span is already walked. */
  lemma LineStep(dx: nat, dy: nat, a: nat, b: nat, error: int)
    requires a <= dx && b <= dy && (a < dx || b < dy)
    requires error == Rows(b + 1, dx) - Rows(a + 1, dy)
    ensures 2 * error + dy > 0 || 2 * error < dx
    ensures 2 * error + dy > 0 ==> a < dx
    ensures 2 * error < dx ==> b < dy
  {
    if a == dx {
      RowsMono(b + 1, dy, dx);
      RowsProduct(dy, dx);
      RowsProduct(dx, dy);
      RowsSucc(dx, dy);
    }
    if b == dy {
      RowsMono(a + 1, dx, dy);
      RowsProduct(dy, dx);
      RowsProduct(dx, dy);
      RowsSucc(dy, dx);
    }
  }

  /** Where the line loop stands after a steps along x and b along y from
      (x1, y1) towards (x2, y2), with Bresenham's error term
      `(b + 1) * dx - (a + 1) * dy`. */
  ghost predicate LineState(x1: int, y1: int, x2: int, y2: int, x: int, y: int, error: int, a: nat, b: nat) {
    var dx := if x2 >= x1 then x2 - x1 else x1 - x2;
    var dy := if y2 >= y1 then y2 - y1 else y1 - y2;
    && a <= dx && b <= dy
    && x == (if x1 < x2 then x1 + a else x1 - a) && y == (if y1 < y2 then y1 + b else y1 - b)
    && error == Rows(b + 1, dx) - Rows(a + 1, dy)
  }

  /** One step of the line loop after its pixel is drawn: the doubled error
      decides whether x, y or both move one unit towards the far end, so the
      next point is a neighbour, still inside the rectangle the end points
      span, and the walk gets closer to its end. */
  method LineAdvance(ghost x1: int, ghost y1: int, ghost x2: int, ghost y2: int, dx: int, dy: int,
                     signX: int, signY: int, x: int, y: int, error: int, ghost a: nat, ghost b: nat)
    returns (x': int, y': int, error': int, ghost a': nat, ghost b': nat)
    requires LineState(x1, y1, x2, y2, x, y, error, a, b) && (x != x2 || y != y2)
    requires dx == (if x2 >= x1 then x2 - x1 else x1 - x2) && dy == (if y2 >= y1 then y2 - y1 else y1 - y2)
    requires signX == (if x1 < x2 then 1 else -1) && signY == (if y1 < y2 then 1 else -1)
    ensures LineState(x1, y1, x2, y2, x', y', error', a', b') && a + b < a' + b'
    ensures KingStep((x, y), (x', y')) && Between(x1, x', x2) && Between(y1, y', y2)
  {
    x', y', error', a', b' := x, y, error, a, b;
    var error2 := error * 2;
    LineStep(dx, dy, a, b, error);
    if error2 > -dy {
      error' := error' - dy;
      x' := x' + signX;
      a' := a' + 1;
    }
    if error2 < dx {
      error' := error' + dx;
      y' := y' + signY;
      b' := b' + 1;
    }
  }

  /** One step of the circle's arc: right, down, or both. */
  predicate ArcStep(p: (int, int), q: (int, int)) {
    (q.0 == p.0 + 1 || q.0 == p.0) && (q.1 == p.1 - 1 || q.1 == p.1) && p != q
  }

  /** The arc a circle of `radius` has walked so far, and the point it
      visits next: it starts at the top, (0, radius), moves by arc steps and
      has visited only points with x >= 0 and y >= 0. */
  ghost predicate Arc(arc: seq<(int, int)>, radius: int, next: (int, int)) {
    && (if arc == [] then next == (0, radius) else arc[0] == (0, radius) && ArcStep(arc[|arc| - 1], next))
    && (forall k :: 0 <= k < |arc| - 1 ==> ArcStep(arc[k], arc[k + 1]))
    && (forall k :: 0 <= k < |arc| ==> arc[k].0 >= 0 && arc[k].1 >= 0)
  }

  /** Visiting the next point and stepping on extends the arc. */
  lemma ArcGrows(arc: seq<(int, int)>, radius: int, p: (int, int), q: (int, int))
    requires Arc(arc, radius, p) && p.0 >= 0 && p.1 >= 0 && ArcStep(p, q)
    ensures Arc(arc + [p], radius, q)
  {
    var longer := arc + [p];
    assert longer[|arc|] == p;
    forall k | 0 <= k < |longer| - 1
      ensures ArcStep(longer[k], longer[k + 1])
    {
      if k + 1 == |arc| {
        assert longer[k] == arc[|arc| - 1];
      } else {
        assert longer[k] == arc[k] && longer[k + 1] == arc[k + 1];
      }
    }
  }

  /** The four points an arc point (x, y) stands for around (x0, y0), in the
      order the source paints them. */
  function Quadrants(x0: int, y0: int, p: (int, int)): seq<(int, int)> {
    [(x0 + p.0, y0 + p.1), (x0 + p.0, y0 - p.1), (x0 - p.0, y0 + p.1), (x0 - p.0, y0 - p.1)]
  }

  /** The points painted for an arc, four per arc point. */
  function Mirrored(x0: int, y0: int, arc: seq<(int, int)>): (r: seq<(int, int)>)
    ensures |r| == 4 * |arc|
  {
    if arc == [] then [] else Mirrored(x0, y0, arc[..|arc| - 1]) + Quadrants(x0, y0, arc[|arc| - 1])
  }

  /** Drawing four more points plots them one after another. */
  lemma DrawQuadrants(b: seq<byte>, width: u32, height: u32, bits: u32, colorCount: u32,
                      points: seq<(int, int)>, x0: int, y0: int, p: (int, int), color: u32)
    requires AllFit(|b|, width, height, bits, colorCount)
    ensures
      var q := Quadrants(x0, y0, p);
      var r0 := Draw(b, width, height, bits, colorCount, points, color);
      var r1 := Plot(r0, width, height, bits, colorCount, q[0].0, q[0].1, color);
      var r2 := Plot(r1, width, height, bits, colorCount, q[1].0, q[1].1, color);
      var r3 := Plot(r2, width, height, bits, colorCount, q[2].0, q[2].1, color);
      Draw(b, width, height, bits, colorCount, points + q, color)
        == Plot(r3, width, height, bits, colorCount, q[3].0, q[3].1, color)
  {
    var q := Quadrants(x0, y0, p);
    var s1 := points + [q[0]];
    var s2 := s1 + [q[1]];
    var s3 := s2 + [q[2]];
    DrawSnoc(b, width, height, bits, colorCount, points, q[0], color);
    DrawSnoc(b, width, height, bits, colorCount, s1, q[1], color);
    DrawSnoc(b, width, height, bits, colorCount, s2, q[2], color);
    DrawSnoc(b, width, height, bits, colorCount, s3, q[3], color);
    assert s3 + [q[3]] == points + q;
  }

  /** Drawing one more point plots it on what the others drew. */
  lemma DrawSnoc(b: seq<byte>, width: u32, height: u32, bits: u32, colorCount: u32,
                 points: seq<(int, int)>, p: (int, int), color: u32)
    requires AllFit(|b|, width, height, bits, colorCount)
    ensures Draw(b, width, height, bits, colorCount, points + [p], color)
            == Plot(Draw(b, width, height, bits, colorCount, points, color), width, height, bits, colorCount, p.0, p.1, color)
  {
    assert (points + [p])[..|points|] == points;
  }

  /** One step of the circle loop after its four points are drawn. The
      doubled error terms choose a step right, down or diagonal; a step
      right happens only while `delta` is negative and raises it. */
  method CircleAdvance(x: int, y: int, delta: int) returns (x': int, y': int, delta': int)
    requires x >= 0
    ensures ArcStep((x, y), (x', y'))
    ensures y' < y || (y' == y && delta < 0 && delta < delta')
  {
    var error := 2 * (delta + y) - 1;
    if delta < 0 && error <= 0 {
      x' := x + 1;
      return x', y, delta + 2 * x' + 1;
    }
    error := 2 * (delta - x) - 1;
    if delta > 0 && error > 0 {
      y' := y - 1;
      return x, y', delta + 1 - 2 * y';
    }
    x' := x + 1;
    delta' := delta + 2 * (x' - y);
    y' := y - 1;
  }

  /** The BMP record: the caller sets width, height, depth and whether an
      AND mask follows; `CreateBitmap` fills in the rest. */
  class Bitmap {
    var buffer: array<byte>
    var size: u32
    var width: u32
    var height: u32
    var colorCount: u32
    var bitCount: u32
    var andBmp: bool

    /** A bitmap as `CreateBitmap` lays it out: a supported depth, the buffer
        exactly as long as header, palette, pixel rows and mask rows, and the
        info header describing it in front. */
    ghost predicate Valid()
      reads this, buffer
    {
      buffer.Length == size && IsDepth(bitCount) && colorCount == ColorCount(bitCount)
      && size == INFO_HEADER_SIZE + ImageSize(width, height, bitCount, andBmp)
      && buffer[..INFO_HEADER_SIZE] == InfoHeader(width, height, bitCount, andBmp, size - INFO_HEADER_SIZE)
    }

    /** A valid bitmap whose pixels `SetPixel` keeps inside the buffer: at
        paletted depths `Width * BitCount` does not wrap, so that every
        pixel's bytes lie in its own row; at 24 and 32 bits, where the row
        stride is taken from the height, the top right pixel, which is
        addressed last, still fits. */
    ghost predicate Drawable()
      reads this, buffer
    {
      Valid() && (Paletted(bitCount) ==> width * bitCount < TWO32)
      && ((bitCount == 24 || bitCount == 32) && 1 <= width && 1 <= height
          ==> PixelByteAsWritten(width, height, bitCount, width, 1) + PixelWidth(bitCount) <= size)
    }

    /** Every valid square or landscape bitmap whose `Width * BitCount` does
        not wrap is drawable. */
    lemma LandscapeDrawable()
      requires Valid() && (Paletted(bitCount) ==> width * bitCount < TWO32) && height <= width
      ensures Drawable()
    {
      if (bitCount == 24 || bitCount == 32) && 1 <= width && 1 <= height {
        AsWrittenInRowsLandscape(width, height, bitCount);
      }
    }

    /** The record as the caller fills it before `CreateBitmap`. */
    constructor (width: u32, height: u32, bitCount: u32, andBmp: bool)
      ensures this.width == width && this.height == height && this.bitCount == bitCount && this.andBmp == andBmp
      ensures size == 0 && colorCount == 0 && buffer.Length == 0
    {
      this.width := width;
      this.height := height;
      this.bitCount := bitCount;
      this.andBmp := andBmp;
      size := 0;
      colorCount := 0;
      buffer := new byte[0];
    }

    /** Checks the depth, computes the colour count and the size, allocates
        a zeroed buffer, writes the info header and walks a cursor over the
        palette, the pixel rows and the mask rows, which must end exactly at
        the end of the buffer. */
    method CreateBitmap() returns (r: Creation)
      modifies this
      ensures width == old(width) && height == old(height) && bitCount == old(bitCount) && andBmp == old(andBmp)
      ensures r == BadDepth <==> !IsDepth(bitCount)
      ensures r == BadDepth ==> colorCount == old(colorCount) && size == old(size) && buffer == old(buffer)
      ensures r != BadDepth ==> colorCount == ColorCount(bitCount)
      ensures r == TooLarge <==> IsDepth(bitCount) && INFO_HEADER_SIZE + ImageSize(width, height, bitCount, andBmp) >= TWO32
      ensures r == Created ==> fresh(buffer) && Valid()
      ensures r == Created ==> ZeroFrom(buffer[..], INFO_HEADER_SIZE)
    {
      if !IsDepth(bitCount) {
        return BadDepth;
      }
      colorCount := ColorCount(bitCount);
      var image := ImageSize(width, height, bitCount, andBmp);
      if INFO_HEADER_SIZE + image >= TWO32 {
        return TooLarge;
      }
      size := INFO_HEADER_SIZE + image;
      Lay();
      r := Created;
    }

    /** Stores `color` as palette entry `index`: only paletted depths have a
        palette, and only indices below the colour count are accepted. */
    method SetPalette(index: u32, color: u32) returns (r: int)
      requires Paletted(bitCount) && index < colorCount ==> PaletteAt(index) + 4 <= buffer.Length
      modifies buffer
      ensures r == 0 <==> Paletted(bitCount) && index < colorCount
      ensures r == 0 ==> buffer[..] == Overwrite(old(buffer[..]), PaletteAt(index), Le32(color))
      ensures r != 0 ==> r == 1 && buffer[..] == old(buffer[..])
      ensures old(Valid()) ==> Valid()
    {
      if !Paletted(bitCount) {
        return 1;
      }
      if index >= colorCount {
        return 1;
      }
      ghost var valid := Valid();
      if valid {
        PaletteInPalette(index);
      }
      Copy(buffer, PaletteAt(index), Le32(color));
      assert valid ==> buffer[..INFO_HEADER_SIZE] == old(buffer[..INFO_HEADER_SIZE]);
      r := 0;
    }

    /** Where palette entry `index` is stored, in 32-bit arithmetic. */
    function PaletteAt(index: u32): u32
      reads this
    {
      Wrap(INFO_HEADER_SIZE + index * 4)
    }

    /** In a valid bitmap every accepted palette entry lies between the info
        header and the pixel rows. */
    lemma PaletteInPalette(index: u32)
      requires Valid() && Paletted(bitCount) && index < colorCount
      ensures INFO_HEADER_SIZE <= PaletteAt(index)
      ensures PaletteAt(index) + 4 <= INFO_HEADER_SIZE + PaletteBytes(bitCount) <= buffer.Length
    {
      ColorCounts();
      assert colorCount <= 0x100 by {
        if bitCount == 1 {} else if bitCount == 4 {} else {}
      }
      WrapSmall(INFO_HEADER_SIZE + index * 4);
      assert PaletteBytes(bitCount) == colorCount * 4;
    }

    /** Paints pixel (x, y), counted from 1 with row 1 on top, with `color`:
        an OR of the colour index into the pixel's bits at 1 and 4 bits, the
        colour's low byte at 8 bits, zeros at 24 and 32 bits, at the address
        `PixelAt` computes (at 24 and 32 bits with the row stride taken from
        the height). Coordinates outside the bitmap are refused with 1. */
    method SetPixel(x: int, y: int, color: u32) returns (r: int)
      requires 1 <= x <= width && 1 <= y <= height ==> Fits(buffer.Length, width, height, bitCount, colorCount, x, y)
      modifies buffer
      ensures r == 0 <==> 1 <= x <= width && 1 <= y <= height
      ensures r == 0 ==> buffer[..] == Painted(old(buffer[..]), width, height, bitCount, colorCount, x, y, color)
      ensures r != 0 ==> r == 1 && buffer[..] == old(buffer[..])
      ensures old(Drawable()) ==> Drawable()
    {
      if x <= 0 || y <= 0 || x > width || y > height {
        return 1;
      }
      ghost var drawable := Drawable();
      if drawable {
        PixelInside(x, y);
      }
      ghost var before := buffer[..];
      Paint(PixelAt(width, height, bitCount, colorCount, x, y), x, color);
      assert drawable ==> buffer[..INFO_HEADER_SIZE] == before[..INFO_HEADER_SIZE];
      r := 0;
    }

    /** The stores of `SetPixel` for the pixel at byte `at`. */
    method Paint(at: nat, x: nat, color: u32)
      requires x >= 1 && (IsDepth(bitCount) ==> at + PixelWidth(bitCount) <= buffer.Length)
      modifies buffer
      ensures buffer[..] == PaintAt(old(buffer[..]), at, bitCount, x, color)
    {
      if bitCount == 1 {
        buffer[at] := OrByte(buffer[at], color * Pow2(BitShift(x)));
      } else if bitCount == 4 {
        var shift := if x % 2 == 1 then 4 else 0;
        buffer[at] := OrByte(buffer[at], color * Pow2(shift));
      } else if bitCount == 8 {
        buffer[at] := Low8(color);
      } else if bitCount == 24 {
        buffer[at] := 0;
        buffer[at + 1] := 0;
        buffer[at + 2] := 0;
        assert buffer[..] == Overwrite(old(buffer[..]), at, [0, 0, 0]);
      } else if bitCount == 32 {
        buffer[at] := 0;
        buffer[at + 1] := 0;
        buffer[at + 2] := 0;
        buffer[at + 3] := 0;
        assert buffer[..] == Overwrite(old(buffer[..]), at, [0, 0, 0, 0]);
      }
    }

    /** In a drawable bitmap every pixel's bytes lie behind the palette and
        inside the buffer. */
    lemma PixelInside(x: int, y: int)
      requires Drawable() && 1 <= x <= width && 1 <= y <= height
      ensures Fits(buffer.Length, width, height, bitCount, colorCount, x, y)
      ensures INFO_HEADER_SIZE + PaletteBytes(bitCount) <= PixelAt(width, height, bitCount, colorCount, x, y)
    {
      if bitCount == 24 || bitCount == 32 {
        AsWrittenBelowCorner(width, height, bitCount, x, y);
        WrapSmall(PixelByteAsWritten(width, height, bitCount, x, y));
      } else {
        PixelInRows(width, height, bitCount, x, y);
        var at := PixelByte(width, height, bitCount, colorCount, x, y);
        assert at + PixelWidth(bitCount) <= size;
        WrapSmall(at);
      }
    }

    /** In a drawable bitmap every pixel fits the buffer. */
    lemma DrawableFits()
      requires Drawable()
      ensures AllFit(buffer.Length, width, height, bitCount, colorCount)
    {
      forall x: nat, y: nat | 1 <= x <= width && 1 <= y <= height
        ensures Fits(buffer.Length, width, height, bitCount, colorCount, x, y)
      {
        PixelInside(x, y);
      }
    }

    /** `SetPixel` on a drawable bitmap, whatever its answer. */
    method PlotPixel(x: int, y: int, color: u32)
      requires Drawable()
      modifies buffer
      ensures Drawable() && AllFit(buffer.Length, width, height, bitCount, colorCount)
      ensures buffer[..] == Plot(old(buffer[..]), width, height, bitCount, colorCount, x, y, color)
    {
      DrawableFits();
      var _ := SetPixel(x, y, color);
      DrawableFits();
    }

    /** Bresenham's line from (x1, y1) to (x2, y2): the end point is painted
        first, then the points of the line from the start on, each a king's
        step from the one before and inside the rectangle the end points
        span. The walk stops at the first point right of or below the
        bitmap (compared as unsigned, as in the source); otherwise it ends
        next to the end point. */
    method DrawLine(x1: i32, y1: i32, x2: i32, y2: i32, color: u32)
      returns (ghost path: seq<(int, int)>, ghost cut: bool, ghost stop: (int, int))
      requires Drawable()
      modifies buffer
      ensures Drawable() && AllFit(buffer.Length, width, height, bitCount, colorCount)
      ensures buffer[..] == Draw(old(buffer[..]), width, height, bitCount, colorCount, path, color)
      ensures LineWalk(path, x1, y1, x2, y2, stop)
      ensures !cut ==> stop == (x2 as int, y2 as int)
      ensures cut ==> Unsigned32(stop.0) > width || Unsigned32(stop.1) > height
    {
      ghost var start := buffer[..];
      PlotPixel(x2, y2, color);
      var dx := if x2 >= x1 then x2 - x1 else x1 - x2;
      var dy := if y2 >= y1 then y2 - y1 else y1 - y2;
      var signX := if x1 < x2 then 1 else -1;
      var signY := if y1 < y2 then 1 else -1;
      var error := dx - dy;
      path := [(x2 as int, y2 as int)];
      cut := false;
      var x: int, y: int := x1, y1;
      ghost var a: nat, b: nat := 0, 0;
      RowsSucc(0, dx);
      RowsSucc(0, dy);
      assert LineState(x1, y1, x2, y2, x, y, error, a, b);
      while x != x2 || y != y2
        invariant Drawable() && AllFit(buffer.Length, width, height, bitCount, colorCount)
        invariant buffer[..] == Draw(start, width, height, bitCount, colorCount, path, color)
        invariant LineState(x1, y1, x2, y2, x, y, error, a, b)
        invariant LineWalk(path, x1, y1, x2, y2, (x, y))
        decreases dx - a + dy - b
      {
        if Unsigned32(x) > width {
          cut := true;
          break;
        }
        if Unsigned32(y) > height {
          cut := true;
          break;
        }
        x, y, error, a, b, path :=
          LinePoint(x1, y1, x2, y2, dx, dy, signX, signY, x, y, error, a, b, color, start, path);
      }
      stop := (x, y);
    }

    /** The body of `DrawLine`'s loop once the point is known to lie inside
        the bitmap: paint it, then step to the next one. */
    method LinePoint(ghost x1: int, ghost y1: int, ghost x2: int, ghost y2: int, dx: int, dy: int,
                     signX: int, signY: int, x: int, y: int, error: int, ghost a: nat, ghost b: nat,
                     color: u32, ghost start: seq<byte>, ghost path: seq<(int, int)>)
      returns (x': int, y': int, error': int, ghost a': nat, ghost b': nat, ghost path': seq<(int, int)>)
      requires Drawable() && AllFit(|start|, width, height, bitCount, colorCount)
      requires buffer[..] == Draw(start, width, height, bitCount, colorCount, path, color)
      requires LineState(x1, y1, x2, y2, x, y, error, a, b) && (x != x2 || y != y2)
      requires LineWalk(path, x1, y1, x2, y2, (x, y))
      requires dx == (if x2 >= x1 then x2 - x1 else x1 - x2) && dy == (if y2 >= y1 then y2 - y1 else y1 - y2)
      requires signX == (if x1 < x2 then 1 else -1) && signY == (if y1 < y2 then 1 else -1)
      modifies buffer
      ensures Drawable() && AllFit(buffer.Length, width, height, bitCount, colorCount)
      ensures buffer[..] == Draw(start, width, height, bitCount, colorCount, path', color)
      ensures LineState(x1, y1, x2, y2, x', y', error', a', b') && a + b < a' + b'
      ensures LineWalk(path', x1, y1, x2, y2, (x', y'))
    {
      PlotPixel(x, y, color);
      path' := path + [(x, y)];
      assert path'[..|path'| - 1] == path;
      x', y', error', a', b' := LineAdvance(x1, y1, x2, y2, dx, dy, signX, signY, x, y, error, a, b);
      LineWalkGrows(path, x1, y1, x2, y2, (x, y), (x', y'));
    }

    /** The midpoint circle of `radius` around (x0, y0): the arc walks
        from the top of the circle, (0, radius), by steps right, down or
        diagonal until it reaches the horizontal axis, and each arc point
        paints its four mirror images. A negative radius paints nothing. */
    method DrawCircle(x0: i32, y0: i32, radius: i32, color: u32) returns (ghost arc: seq<(int, int)>)
      requires Drawable()
      modifies buffer
      ensures Drawable() && AllFit(buffer.Length, width, height, bitCount, colorCount)
      ensures buffer[..] == Draw(old(buffer[..]), width, height, bitCount, colorCount, Mirrored(x0, y0, arc), color)
      ensures arc == [] <==> radius < 0
      ensures arc != [] ==> arc[0] == (0, radius as int) && arc[|arc| - 1].1 == 0
      ensures forall k :: 0 <= k < |arc| - 1 ==> ArcStep(arc[k], arc[k + 1])
      ensures forall k :: 0 <= k < |arc| ==> arc[k].0 >= 0 && arc[k].1 >= 0
    {
      var x: int, y: int := 0, radius;
      var delta := 2 - 2 * radius;
      arc := [];
      DrawableFits();
      ghost var start := old(buffer[..]);
      while y >= 0
        invariant Drawable() && AllFit(buffer.Length, width, height, bitCount, colorCount)
        invariant buffer[..] == Draw(start, width, height, bitCount, colorCount, Mirrored(x0, y0, arc), color)
        invariant Arc(arc, radius, (x, y)) && x >= 0
        decreases y + 1, if delta < 0 then -delta else 0
      {
        x, y, delta, arc := CirclePoint(x0, y0, x, y, delta, color, start, arc, radius);
      }
    }

    /** `SetPixel` on the four mirror images of `p` around (x0, y0). */
    method PlotQuadrants(x0: int, y0: int, p: (int, int), color: u32)
      requires Drawable()
      modifies buffer
      ensures Drawable() && AllFit(buffer.Length, width, height, bitCount, colorCount)
      ensures
        var q := Quadrants(x0, y0, p);
        var r1 := Plot(old(buffer[..]), width, height, bitCount, colorCount, q[0].0, q[0].1, color);
        var r2 := Plot(r1, width, height, bitCount, colorCount, q[1].0, q[1].1, color);
        var r3 := Plot(r2, width, height, bitCount, colorCount, q[2].0, q[2].1, color);
        buffer[..] == Plot(r3, width, height, bitCount, colorCount, q[3].0, q[3].1, color)
    {
      var q := Quadrants(x0, y0, p);
      ghost var r0 := buffer[..];
      PlotPixel(q[0].0, q[0].1, color);
      ghost var r1 := buffer[..];
      PlotPixel(q[1].0, q[1].1, color);
      ghost var r2 := buffer[..];
      PlotPixel(q[2].0, q[2].1, color);
      ghost var r3 := buffer[..];
      PlotPixel(q[3].0, q[3].1, color);
    }

    /** The body of `DrawCircle`'s loop: paint the four mirror images of
        (x, y), then step along the arc. */
    method CirclePoint(x0: int, y0: int, x: int, y: int, delta: int, color: u32,
                       ghost start: seq<byte>, ghost arc: seq<(int, int)>, ghost radius: int)
      returns (x': int, y': int, delta': int, ghost arc': seq<(int, int)>)
      requires Drawable() && AllFit(|start|, width, height, bitCount, colorCount)
      requires buffer[..] == Draw(start, width, height, bitCount, colorCount, Mirrored(x0, y0, arc), color)
      requires Arc(arc, radius, (x, y)) && x >= 0 && y >= 0
      modifies buffer
      ensures Drawable() && AllFit(buffer.Length, width, height, bitCount, colorCount)
      ensures buffer[..] == Draw(start, width, height, bitCount, colorCount, Mirrored(x0, y0, arc'), color)
      ensures Arc(arc', radius, (x', y')) && x' >= 0
      ensures y' < y || (y' == y && delta < 0 && delta < delta')
    {
      PlotQuadrants(x0, y0, (x, y), color);
      DrawQuadrants(start, width, height, bitCount, colorCount, Mirrored(x0, y0, arc), x0, y0, (x, y), color);
      arc' := arc + [(x, y)];
      assert arc'[..|arc'| - 1] == arc;
      x', y', delta' := CircleAdvance(x, y, delta);
      ArcGrows(arc, radius, (x, y), (x', y'));
    }

    /** Sets the AND-mask bit of pixel (x, y) in an icon, in the byte whose
        row is taken from the width (`MaskAt`); does nothing for a bitmap
        without a mask or coordinates outside it, compared as unsigned
        numbers as in the source. The header is kept whenever that byte lies
        behind it. */
    method MaskBitmap(x: i32, y: i32)
      requires Masked(x, y) ==> x > 0 && MaskAt(x, y) < buffer.Length
      modifies buffer
      ensures Masked(x, y) ==> buffer[..] == old(buffer[..])[MaskAt(x, y) := OrByte(old(buffer[MaskAt(x, y)]), Pow2(BitShift(x)))]
      ensures !Masked(x, y) ==> buffer[..] == old(buffer[..])
      ensures old(Valid()) && (Masked(x, y) ==> INFO_HEADER_SIZE <= MaskAt(x, y)) ==> Valid()
    {
      if !andBmp || x == 0 || y == 0 || Unsigned32(x) > width || Unsigned32(y) > height {
        return;
      }
      var at := MaskAt(x, y);
      buffer[at] := OrByte(buffer[at], Pow2(BitShift(x)));
      assert INFO_HEADER_SIZE <= at ==> buffer[..INFO_HEADER_SIZE] == old(buffer[..INFO_HEADER_SIZE]);
    }

    /** `MaskBitmap` gets past its checks. */
    predicate Masked(x: i32, y: i32)
      reads this
    {
      andBmp && x != 0 && y != 0 && Unsigned32(x) <= width && Unsigned32(y) <= height
    }

    /** The mask byte of pixel (x, y) as `MaskBitmap` computes it, with the
        row taken from the width, in 32-bit arithmetic. */
    function MaskAt(x: i32, y: i32): u32
      requires x > 0
      reads this
    {
      Wrap(MaskByteAsWritten(size, width, height, x, y))
    }

    /** In a valid icon the mask bit of pixel (x, y) lies in the mask rows,
        behind the header, palette and pixel rows, when the row taken from
        the width names a real row: for every pixel of a square icon. */
    lemma MaskInside(x: i32, y: i32)
      requires Valid() && Masked(x, y) && x > 0 && y > 0 && y <= width < y + height
      ensures INFO_HEADER_SIZE + PaletteBytes(bitCount) + Rows(height, PixelRow(width, bitCount)) <= MaskAt(x, y) < buffer.Length
    {
      var row := AndRow(width);
      assert AndSize(width, andBmp) == row;
      assert size == INFO_HEADER_SIZE + PaletteBytes(bitCount) + Rows(height, PixelRow(width, bitCount)) + Rows(height, row);
      MaskAsWrittenInRows(size, width, height, x, y);
      WrapSmall(MaskByteAsWritten(size, width, height, x, y));
    }

    /** `OpenBitmap`: a record over a copy of `size` bytes of `input`, its
        dimensions and depth read from the info header at the front; the
        mask flag is cleared. */
    constructor Open(input: seq<byte>, size: u32)
      requires |input| >= 0x10 && size <= |input|
      ensures width == FromLe32(input[0x04..]) && height == FromLe32(input[0x08..])
      ensures bitCount == FromLe16(input[0x0E..]) && colorCount == ColorCount(bitCount)
      ensures !andBmp && this.size == size
      ensures fresh(buffer) && buffer[..] == input[..size]
    {
      width := FromLe32(input[0x04..]);
      height := FromLe32(input[0x08..]);
      bitCount := FromLe16(input[0x0E..]);
      colorCount := ColorCount(FromLe16(input[0x0E..]));
      andBmp := false;
      this.size := size;
      buffer := new byte[size](k requires 0 <= k < size => input[k]);
    }

    /** `OpenBitmap` on the buffer of a bitmap without a mask gives back the
        same bitmap: width, height and depth read back from the info header,
        and the copy holds every byte. */
    method Reopen() returns (b: Bitmap)
      requires Valid() && !andBmp
      ensures fresh(b) && fresh(b.buffer) && b.Valid() && !b.andBmp
      ensures b.width == width && b.height == height && b.bitCount == bitCount
      ensures b.colorCount == colorCount && b.size == size && b.buffer[..] == buffer[..]
    {
      ghost var s := buffer[..];
      InfoHeaderFields(width, height, bitCount, andBmp, size - INFO_HEADER_SIZE, s);
      SmallMod(bitCount, TWO16);
      assert FromLe32(s[0x04..]) == width && FromLe32(s[0x08..]) == height && FromLe16(s[0x0E..]) == bitCount;
      b := new Bitmap.Open(buffer[..], size);
      assert b.buffer[..] == s;
      assert b.buffer[..INFO_HEADER_SIZE] == s[..INFO_HEADER_SIZE];
    }

    /** `CreateBMPFile`: the file header followed by a copy of the buffer. */
    method CreateBMPFile() returns (r: int, file: array<byte>, fileSize: u32)
      requires size <= buffer.Length && FILE_HEADER_SIZE + size < TWO32
      ensures r == 0 && fresh(file) && fileSize == FILE_HEADER_SIZE + size && file.Length == fileSize
      ensures file[..] == FileHeader(fileSize, DataOffsetAsWritten(colorCount)) + buffer[..size]
    {
      fileSize := FILE_HEADER_SIZE + size;
      file := new byte[fileSize](_ => 0);
      Copy(file, 0, FileHeader(fileSize, DataOffsetAsWritten(colorCount)));
      Copy(file, FILE_HEADER_SIZE, buffer[..size]);
      assert file[..] == FileHeader(fileSize, DataOffsetAsWritten(colorCount)) + buffer[..size];
      r := 0;
    }

    /** The allocation, the header and the cursor walk of `CreateBitmap`. */
    method Lay()
      requires IsDepth(bitCount) && colorCount == ColorCount(bitCount)
      requires size == INFO_HEADER_SIZE + ImageSize(width, height, bitCount, andBmp)
      modifies this
      ensures width == old(width) && height == old(height) && bitCount == old(bitCount) && andBmp == old(andBmp)
      ensures colorCount == old(colorCount) && size == old(size)
      ensures fresh(buffer) && Valid() && ZeroFrom(buffer[..], INFO_HEADER_SIZE)
    {
      buffer := new byte[size](_ => 0);
      Copy(buffer, 0, InfoHeader(width, height, bitCount, andBmp, size - INFO_HEADER_SIZE));
      ghost var laid := buffer[..];
      assert ZeroFrom(laid, INFO_HEADER_SIZE);
      var offset := Walk();
      assert offset == size;
      assert buffer[..] == laid;
    }

    /** The cursor walk of `CreateBitmap` over palette, pixel rows and mask
        rows; it ends exactly at the end of the buffer. */
    method Walk() returns (offset: nat)
      requires IsDepth(bitCount) && colorCount == ColorCount(bitCount)
      requires buffer.Length == size == INFO_HEADER_SIZE + ImageSize(width, height, bitCount, andBmp)
      requires ZeroFrom(buffer[..], INFO_HEADER_SIZE)
      modifies buffer
      ensures offset == size && buffer[..] == old(buffer[..])
    {
      ColorCounts();
      var xorSize := XorSize(width, bitCount);
      var andSize := AndSize(width, andBmp);
      offset := INFO_HEADER_SIZE;
      if !(bitCount == 24 || bitCount == 32) {
        offset := ClearPalette(offset);
        offset := ClearRows(offset, height, xorSize);
      }
      if bitCount == 24 || bitCount == 32 {
        offset := ClearPixels(offset);
      }
      assert offset == INFO_HEADER_SIZE + PaletteBytes(bitCount) + Rows(height, PixelRow(width, bitCount));
      if andBmp {
        offset := ClearRows(offset, height, andSize);
      } else {
        RowsProduct(height, andSize);
      }
    }

    /** The palette loop of `CreateBitmap`: four zero bytes per colour. */
    method ClearPalette(offset: nat) returns (end: nat)
      requires offset + colorCount * 4 <= buffer.Length && ZeroFrom(buffer[..], offset)
      modifies buffer
      ensures end == offset + colorCount * 4 && buffer[..] == old(buffer[..])
    {
      end := offset;
      var i := 0;
      while i < colorCount
        invariant i <= colorCount && end == offset + i * 4 && buffer[..] == old(buffer[..])
      {
        assert buffer[end] == 0 && buffer[end + 1] == 0 && buffer[end + 2] == 0 && buffer[end + 3] == 0;
        buffer[end] := 0;
        buffer[end + 1] := 0;
        buffer[end + 2] := 0;
        buffer[end + 3] := 0;
        end := end + 4;
        i := i + 1;
      }
    }

    /** The XOR-row and AND-row loops of `CreateBitmap`: `count` rows of
        `row` zero bytes, one byte at a time. */
    method ClearRows(offset: nat, count: nat, row: nat) returns (end: nat)
      requires offset + Rows(count, row) <= buffer.Length && ZeroFrom(buffer[..], offset)
      modifies buffer
      ensures end == offset + Rows(count, row) && buffer[..] == old(buffer[..])
    {
      end := offset;
      var i := 0;
      while i < count
        invariant i <= count && end == offset + Rows(i, row) && buffer[..] == old(buffer[..])
      {
        RowsSucc(i, row);
        RowsMono(i + 1, count, row);
        var j := 0;
        while j < row
          invariant j <= row && end == offset + Rows(i, row) + j && buffer[..] == old(buffer[..])
        {
          assert buffer[end] == 0;
          buffer[end] := 0;
          end := end + 1;
          j := j + 1;
        }
        i := i + 1;
      }
    }

    /** The 24- and 32-bit loop of `CreateBitmap`: three or four zero bytes
        per pixel and, at 24 bits, `Width % 4` padding bytes skipped per row. */
    method ClearPixels(offset: nat) returns (end: nat)
      requires bitCount == 24 || bitCount == 32
      requires offset + Rows(height, PixelRow(width, bitCount)) <= buffer.Length && ZeroFrom(buffer[..], offset)
      modifies buffer
      ensures end == offset + Rows(height, PixelRow(width, bitCount)) && buffer[..] == old(buffer[..])
    {
      var row := PixelRow(width, bitCount);
      RowsProduct(width, PixelWidth(bitCount));
      end := offset;
      var i := 0;
      while i < height
        invariant i <= height && end == offset + Rows(i, row) && buffer[..] == old(buffer[..])
      {
        RowsSucc(i, row);
        RowsMono(i + 1, height, row);
        end := ClearRowPixels(end);
        if bitCount == 24 {
          end := end + width % 4;
        }
        i := i + 1;
      }
    }

    /** One row of the 24- and 32-bit loop: three or four zero bytes per pixel. */
    method ClearRowPixels(offset: nat) returns (end: nat)
      requires bitCount == 24 || bitCount == 32
      requires offset + Rows(width, PixelWidth(bitCount)) <= buffer.Length && ZeroFrom(buffer[..], offset)
      modifies buffer
      ensures end == offset + Rows(width, PixelWidth(bitCount)) && buffer[..] == old(buffer[..])
    {
      var step := PixelWidth(bitCount);
      end := offset;
      var j := 0;
      while j < width
        invariant j <= width && end == offset + Rows(j, step) && buffer[..] == old(buffer[..])
      {
        RowsSucc(j, step);
        RowsMono(j + 1, width, step);
        assert buffer[end] == 0 && buffer[end + 1] == 0 && buffer[end + 2] == 0;
        buffer[end] := 0;
        buffer[end + 1] := 0;
        buffer[end + 2] := 0;
        if bitCount == 32 {
          assert buffer[end + 3] == 0;
          buffer[end + 3] := 0;
          end := end + 4;
        } else {
          end := end + 3;
        }
        j := j + 1;
      }
    }
  }
}
