/** `FrameCtx`: the view of the pixel buffer that the frame callback gets
    for one call. It borrows the buffer (an array it does not own) together
    with the dimensions, and offers the two drawing primitives, which write
    the array in place. Each primitive is proved against its Canvas
    function. */
module FrameContext {
  import opened RustInts
  import opened Canvas

  class FrameCtx {
    const width: u32
    const height: u32
    const frame: array<u8>

    /** The buffer holds `width * height` pixels of four bytes and every
        byte index fits in `u32`. The source relies on this and never
        checks it. */
    ghost predicate Valid() {
      Fits(width, height) && frame.Length == width * height * 4
    }

    constructor (width: u32, height: u32, frame: array<u8>)
      requires Fits(width, height) && frame.Length == width * height * 4
      ensures this.width == width && this.height == height && this.frame == frame
      ensures Valid()
    {
      this.width := width;
      this.height := height;
      this.frame := frame;
    }

    /** `set_background(r, g, b)`: every pixel, row by row, becomes
        (r as u8, g as u8, b as u8, 255). */
    method SetBackground(r: i64, g: i64, b: i64)
      requires Valid()
      modifies frame
      ensures frame[..] == Apply(old(frame[..]), width, Background(r, g, b))
    {
      var r8: u8, g8: u8, b8: u8 := AsU8(r), AsU8(g), AsU8(b);
      ghost var before := frame[..];
      for y := 0 to height
        invariant frame[..] == Filled(before, r8, g8, b8, y * width * 4)
      {
        for x := 0 to width
          invariant frame[..] == Filled(before, r8, g8, b8, (y * width + x) * 4)
        {
          // The u32 product (y * width + x) * 4 does not overflow.
          PixelInBuffer(width, height, x, y);
          var idx := (y * width + x) * 4;
          StorePixel(frame, idx, r8, g8, b8, Opaque);
          FillStep(before, r8, g8, b8, y * width + x);
        }
        NextRow(y, width);
      }
      assert height * width == width * height;
    }

    /** `set_rect(x, y)`: the 50 x 50 square whose top-left corner is
        (x as i32, y as i32) becomes white, cell by cell, skipping the cells
        that fall outside the buffer. The cell coordinates are computed with
        wrapping `i32` additions. */
    method SetRect(x: i64, y: i64)
      requires Valid()
      modifies frame
      ensures frame[..] == Apply(old(frame[..]), width, Rect(x, y))
    {
      var left, top := AsI32(x), AsI32(y);
      ghost var before := frame[..];
      for j := 0 to SquareSize
        invariant frame[..] == Partial(before, width, left, top, j, 0)
      {
        for i := 0 to SquareSize
          invariant frame[..] == Partial(before, width, left, top, j, i)
        {
          ghost var mid := frame[..];
          var px := WrappingAddI32(left, i);
          var py := WrappingAddI32(top, j);
          if px >= 0 && py >= 0 && px < width && py < height {
            // The u32 product (py * width + px) * 4 does not overflow.
            PixelInBuffer(width, height, px, py);
            var idx := (py * width + px) * 4;
            StorePixel(frame, idx, Opaque, Opaque, Opaque, Opaque);
          }
          assert frame[..] == PaintCell(mid, width, height, px, py);
          CellStep(before, width, height, left, top, j, i);
        }
        RowDone(before, width, left, top, j);
      }
      SquareDone(before, width, left, top);
    }
  }

  /** The four byte writes `frame[idx..idx + 4] = [r, g, b, a]` that both
      primitives perform for one pixel. */
  method StorePixel(frame: array<u8>, idx: int, r: u8, g: u8, b: u8, a: u8)
    requires 0 <= idx && idx + 4 <= frame.Length
    modifies frame
    ensures frame[..] == old(frame[..])[idx := r][idx + 1 := g][idx + 2 := b][idx + 3 := a]
  {
    frame[idx] := r;
    frame[idx + 1] := g;
    frame[idx + 2] := b;
    frame[idx + 3] := a;
  }

  // -----------------------------------------------------------------------
  // Proof of SetBackground

  /** Row y + 1 starts `w` pixels after row y. */
  lemma NextRow(y: int, w: int)
    ensures (y + 1) * w == y * w + w
  {
  }

  /** The buffer once its first `n` bytes have the background colour. */
  ghost function Filled(before: seq<u8>, r: u8, g: u8, b: u8, n: int): (t: seq<u8>)
    ensures |t| == |before|
  {
    var want := FillBackground(before, r, g, b);
    seq(|before|, k requires 0 <= k < |before| => if k < n then want[k] else before[k])
  }

  /** Writing the four bytes of the next pixel extends the coloured prefix
      by one pixel. */
  lemma FillStep(before: seq<u8>, r: u8, g: u8, b: u8, p: int)
    requires 0 <= p && 4 * p + 4 <= |before|
    ensures var n := 4 * p;
      Filled(before, r, g, b, n)[n := r][n + 1 := g][n + 2 := b][n + 3 := Opaque] == Filled(before, r, g, b, n + 4)
  {
  }

  /** The four bytes of pixel (px, py) lie in the buffer, and the `u32`
      index arithmetic that reaches them does not overflow. */
  lemma PixelInBuffer(width: nat, height: nat, px: int, py: int)
    requires Fits(width, height)
    requires 0 <= px < width && 0 <= py < height
    ensures 0 <= py * width + px && (py * width + px) * 4 + 4 <= width * height * 4
    ensures py * width + px <= U32_MAX && (py * width + px) * 4 + 3 <= U32_MAX
  {
    Layout(width, height, px, py, 0);
  }

  // -----------------------------------------------------------------------
  // Proof of SetRect

  /** The cells of the square that the loops of `set_rect` have visited
      after `j` full rows and `i` cells of row `j`. */
  ghost predicate Done(width: nat, left: int, top: int, j: int, i: int, p: nat) {
    width > 0 &&
    ((left <= p % width < left + SquareSize && top <= p / width < top + j) ||
     (p / width == top + j && left <= p % width < left + i))
  }

  /** The buffer once those cells are painted. */
  ghost function Partial(before: seq<u8>, width: nat, left: int, top: int, j: int, i: int): (t: seq<u8>)
    ensures |t| == |before|
  {
    seq(|before|, k requires 0 <= k < |before| => if Done(width, left, top, j, i, k / 4) then 255 else before[k])
  }

  /** One pass of the inner loop's body: paint cell (px, py) if the
      source's bounds check lets it through. */
  ghost function PaintCell(s: seq<u8>, width: nat, height: nat, px: int, py: int): (t: seq<u8>)
    ensures |t| == |s|
  {
    if px >= 0 && py >= 0 && px < width && py < height
    then seq(|s|, k requires 0 <= k < |s| => if k / 4 == py * width + px then 255 else s[k])
    else s
  }

  /** The bounds check on the wrapped cell coordinates lets a cell through
      exactly when the mathematical cell lies in the buffer, and then no
      addition wrapped: a wrapped sum is negative, and a buffer that fits in
      u32 with at least one row is narrower than 2^30. */
  lemma {:induction false} CellGuard(width: nat, height: nat, left: i32, top: i32, i: int, j: int)
    requires Fits(width, height) && 0 <= i < SquareSize && 0 <= j < SquareSize
    ensures var px, py := WrappingAddI32(left, i), WrappingAddI32(top, j);
      (px >= 0 && py >= 0 && px < width && py < height) <==>
      (0 <= left + i < width && 0 <= top + j < height)
    ensures var px, py := WrappingAddI32(left, i), WrappingAddI32(top, j);
      px >= 0 && py >= 0 && px < width && py < height ==> px == left + i && py == top + j
  {
    if height >= 1 {
      MulAtLeast(height, width);
      assert width * height == height * width;
    }
    if width >= 1 {
      MulAtLeast(width, height);
    }
  }

  /** Visiting cell (left + i, top + j) adds exactly that cell to the
      painted ones when the bounds check lets it through, and no pixel of
      the buffer otherwise. */
  lemma DoneStep(width: nat, height: nat, left: i32, top: i32, j: int, i: int, p: nat)
    requires Fits(width, height) && p < width * height
    requires 0 <= i < SquareSize && 0 <= j < SquareSize
    ensures var px, py := WrappingAddI32(left, i), WrappingAddI32(top, j);
      Done(width, left, top, j, i + 1, p) <==>
      Done(width, left, top, j, i, p) ||
      (px >= 0 && py >= 0 && px < width && py < height && p == py * width + px)
  {
    CellGuard(width, height, left, top, i, j);
    DoneStepAt(width, height, left, top, j, i, p, WrappingAddI32(left, i), WrappingAddI32(top, j));
  }

  /** DoneStep once the wrapped coordinates (px, py) are known to agree
      with the mathematical ones whenever the bounds check passes. */
  lemma {:induction false} DoneStepAt(width: nat, height: nat, left: int, top: int, j: int, i: int, p: nat, px: int, py: int)
    requires p < width * height && 0 <= i
    requires (px >= 0 && py >= 0 && px < width && py < height) <==>
             (0 <= left + i < width && 0 <= top + j < height)
    requires px >= 0 && py >= 0 && px < width && py < height ==> px == left + i && py == top + j
    ensures Done(width, left, top, j, i + 1, p) <==>
      Done(width, left, top, j, i, p) ||
      (px >= 0 && py >= 0 && px < width && py < height && p == py * width + px)
  {
    Coordinates(width, height, p);
    var c, r := p % width, p / width;
    assert p == r * width + c;
    assert Done(width, left, top, j, i + 1, p) <==> Done(width, left, top, j, i, p) || (r == top + j && c == left + i);
    if px >= 0 && py >= 0 && px < width && py < height && p == py * width + px {
      DivModUnique(p, width, py, px);
    }
  }

  /** One pass of the inner loop's body paints cell (left + i, top + j) of
      the square, or nothing when that cell is off the buffer. */
  lemma {:induction false} CellStep(before: seq<u8>, width: nat, height: nat, left: i32, top: i32, j: int, i: int)
    requires Fits(width, height) && |before| == width * height * 4
    requires 0 <= i < SquareSize && 0 <= j < SquareSize
    ensures PaintCell(Partial(before, width, left, top, j, i), width, height,
                      WrappingAddI32(left, i), WrappingAddI32(top, j))
         == Partial(before, width, left, top, j, i + 1)
  {
    var px, py := WrappingAddI32(left, i), WrappingAddI32(top, j);
    var got := PaintCell(Partial(before, width, left, top, j, i), width, height, px, py);
    var want := Partial(before, width, left, top, j, i + 1);
    forall k | 0 <= k < |before| ensures got[k] == want[k] {
      DoneStep(width, height, left, top, j, i, k / 4);
    }
  }

  /** A finished row: the first `j + 1` rows of the square are painted. */
  lemma RowDone(before: seq<u8>, width: nat, left: int, top: int, j: int)
    requires 0 <= j
    ensures Partial(before, width, left, top, j, SquareSize) == Partial(before, width, left, top, j + 1, 0)
  {
    var a, b := Partial(before, width, left, top, j, SquareSize), Partial(before, width, left, top, j + 1, 0);
    forall k | 0 <= k < |before| ensures a[k] == b[k] {
      assert Done(width, left, top, j, SquareSize, k / 4) == Done(width, left, top, j + 1, 0, k / 4);
    }
  }

  /** All 50 rows done: the buffer is the painted square of Canvas. */
  lemma SquareDone(before: seq<u8>, width: nat, left: int, top: int)
    ensures Partial(before, width, left, top, SquareSize, 0) == PaintSquare(before, width, left, top)
  {
  }
}
