/** The pixel buffer that a `FrameCtx` draws into, as a value: a flat
    sequence of bytes, four per pixel (R, G, B, A), rows one after the
    other, pixel (px, py) of a buffer `width` pixels wide starting at byte
    `(py * width + px) * 4`. The two drawing primitives are stated here as
    functions of the old buffer; FrameContext proves its loops against them. */
module Canvas {
  import opened RustInts

  /** The side of the square that `set_rect` paints. */
  const SquareSize := 50

  datatype Rgba = Rgba(r: u8, g: u8, b: u8, a: u8)

  /** The byte value of a full channel: the alpha of every pixel the
      primitives write, and each channel of white. */
  const Opaque: u8 := 255

  const White := Rgba(255, 255, 255, 255)

  /** A `width` x `height` buffer whose byte indices `(y * width + x) * 4 + 3`
      can be computed in `u32` without overflow, as the primitives do. */
  predicate Fits(width: int, height: int) {
    0 <= width <= U32_MAX && 0 <= height <= U32_MAX && width * height * 4 <= U32_MAX
  }

  /** The four bytes of pixel `p`. */
  function PixelAt(s: seq<u8>, p: nat): Rgba
    requires 4 * p + 4 <= |s|
  {
    Rgba(s[4 * p], s[4 * p + 1], s[4 * p + 2], s[4 * p + 3])
  }

  /** Pixel `p` (column `p % width`, row `p / width`) lies inside the square
      whose top-left corner is (x, y). */
  predicate InSquare(width: nat, x: int, y: int, p: nat) {
    width > 0 && x <= p % width < x + SquareSize && y <= p / width < y + SquareSize
  }

  /** The buffer after `set_background`: channel bytes r, g, b and an opaque
      alpha in every pixel, whatever was there before. */
  function FillBackground(s: seq<u8>, r: u8, g: u8, b: u8): (t: seq<u8>)
    ensures |t| == |s|
  {
    seq(|s|, k => if k % 4 == 0 then r else if k % 4 == 1 then g else if k % 4 == 2 then b else 255)
  }

  /** The buffer after `set_rect`: the pixels of the square become white and
      every other byte keeps its value. */
  function PaintSquare(s: seq<u8>, width: nat, x: int, y: int): (t: seq<u8>)
    ensures |t| == |s|
  {
    seq(|s|, k requires 0 <= k < |s| => if InSquare(width, x, y, k / 4) then 255 else s[k])
  }

  /** One call a frame callback makes on its `FrameCtx`, with the `i64`
      arguments it passes. */
  datatype Draw = Background(r: i64, g: i64, b: i64) | Rect(x: i64, y: i64)

  /** The buffer after one call, with the casts the primitives apply to
      their arguments. */
  function Apply(s: seq<u8>, width: nat, d: Draw): (t: seq<u8>)
    ensures |t| == |s|
  {
    match d
    case Background(r, g, b) => FillBackground(s, AsU8(r), AsU8(g), AsU8(b))
    case Rect(x, y) => PaintSquare(s, width, AsI32(x), AsI32(y))
  }

  /** The buffer after a sequence of calls, made in order. */
  function ApplyAll(s: seq<u8>, width: nat, ds: seq<Draw>): (t: seq<u8>)
    ensures |t| == |s|
  {
    if ds == [] then s
    else
      Apply(ApplyAll(s, width, ds[..|ds| - 1]), width, ds[|ds| - 1])
  }

  // ---------------------------------------------------------------------
  // Layout of the buffer

  /** A positive multiple of a positive width is at least that width. */
  lemma {:induction false} MulAtLeast(a: int, w: nat)
    requires a >= 1
    ensures a * w >= w
    decreases a
  {
    if a > 1 {
      MulAtLeast(a - 1, w);
      assert a * w == (a - 1) * w + w;
    }
  }

  /** Euclidean division is unique: whoever writes `n` as `q * w + c` with
      `0 <= c < w` has found `n / w` and `n % w`. */
  lemma {:induction false} DivModUnique(n: int, w: int, q: int, c: int)
    requires w > 0 && 0 <= c < w && n == q * w + c
    ensures n / w == q && n % w == c
  {
    var q', c' := n / w, n % w;
    assert n == q' * w + c';
    assert q' * w - q * w == (q' - q) * w;
    if q' > q {
      MulAtLeast(q' - q, w);
    } else if q' < q {
      MulAtLeast(q - q', w);
    }
  }

  /** Pixel (px, py) starts at byte `(py * width + px) * 4`, and that byte
      index lies in a `width` x `height` buffer; its pixel has column px and
      row py. */
  lemma {:induction false} Layout(width: nat, height: nat, px: int, py: int, c: int)
    requires 0 <= px < width && 0 <= py < height && 0 <= c < 4
    ensures 0 <= py * width + px < width * height
    ensures ((py * width + px) * 4 + c) / 4 == py * width + px
    ensures (py * width + px) % width == px && (py * width + px) / width == py
  {
    DivModUnique(py * width + px, width, py, px);
    assert py * width + px < (py + 1) * width;
    MulAtLeast(height - py, width);
    assert height * width - (py + 1) * width == (height - py - 1) * width;
    assert (height - py) * width == height * width - py * width;
  }

  /** Every pixel of a `width` x `height` buffer has a column below width
      and a row below height. */
  lemma {:induction false} Coordinates(width: nat, height: nat, p: nat)
    requires p < width * height
    ensures width > 0 && 0 <= p % width < width && p / width < height
  {
    var row := p / width;
    assert p == row * width + p % width;
    if row > height {
      MulAtLeast(row - height, width);
    }
  }

  // ---------------------------------------------------------------------
  // Properties of the primitives

  /** After `set_background(r, g, b)` every pixel is (r, g, b, 255) with
      each channel cut to its low 8 bits, and every byte was written. */
  lemma BackgroundPixels(s: seq<u8>, width: nat, r: i64, g: i64, b: i64)
    ensures |Apply(s, width, Background(r, g, b))| == |s|
    ensures forall p: nat :: 4 * p + 4 <= |s| ==>
      PixelAt(Apply(s, width, Background(r, g, b)), p) == Rgba(AsU8(r), AsU8(g), AsU8(b), 255)
  {
    var t := Apply(s, width, Background(r, g, b));
    assert t == FillBackground(s, AsU8(r), AsU8(g), AsU8(b));
    forall p: nat | 4 * p + 4 <= |s|
      ensures PixelAt(t, p) == Rgba(AsU8(r), AsU8(g), AsU8(b), 255)
    {
      assert (4 * p) % 4 == 0 && (4 * p + 1) % 4 == 1 && (4 * p + 2) % 4 == 2 && (4 * p + 3) % 4 == 3;
    }
  }

  /** `set_background` overwrites everything: what was drawn before it
      does not matter. */
  lemma BackgroundOverwrites(s1: seq<u8>, s2: seq<u8>, width: nat, r: i64, g: i64, b: i64)
    requires |s1| == |s2|
    ensures Apply(s1, width, Background(r, g, b)) == Apply(s2, width, Background(r, g, b))
  {
  }

  /** In coordinates: after `set_rect(x, y)` with x', y' the `i32`
      truncations of x and y, pixel (px, py) of the buffer is white exactly
      when x' <= px < x' + 50 and y' <= py < y' + 50, and keeps its colour
      otherwise. */
  lemma {:induction false} RectPixels(s: seq<u8>, width: nat, height: nat, x: i64, y: i64, px: int, py: int)
    requires |s| == width * height * 4
    requires 0 <= px < width && 0 <= py < height
    ensures 4 * (py * width + px) + 4 <= |s|
    ensures PixelAt(Apply(s, width, Rect(x, y)), py * width + px) ==
      if AsI32(x) <= px < AsI32(x) + SquareSize && AsI32(y) <= py < AsI32(y) + SquareSize
      then White else PixelAt(s, py * width + px)
  {
    var p := py * width + px;
    Layout(width, height, px, py, 0);
    var t := Apply(s, width, Rect(x, y));
    assert (4 * p + 1) / 4 == p && (4 * p + 2) / 4 == p && (4 * p + 3) / 4 == p;
  }

  /** A square that lies wholly outside the buffer (left of it, above it,
      right of it or below it) changes nothing. */
  lemma {:induction false} SquareOffBuffer(s: seq<u8>, width: nat, height: nat, x: int, y: int)
    requires |s| == width * height * 4
    requires x + SquareSize <= 0 || y + SquareSize <= 0 || x >= width || y >= height
    ensures PaintSquare(s, width, x, y) == s
  {
    var t := PaintSquare(s, width, x, y);
    forall k | 0 <= k < |s| ensures t[k] == s[k] {
      OffBufferPixel(width, height, x, y, k / 4);
    }
  }

  /** No pixel of the buffer lies in a square that is wholly outside it. */
  lemma OffBufferPixel(width: nat, height: nat, x: int, y: int, p: nat)
    requires p < width * height
    requires x + SquareSize <= 0 || y + SquareSize <= 0 || x >= width || y >= height
    ensures !InSquare(width, x, y, p)
  {
    Coordinates(width, height, p);
  }

  /** The same for a `set_rect` call, whose coordinates are cut to `i32`
      first. */
  lemma RectOffBuffer(s: seq<u8>, width: nat, height: nat, x: i64, y: i64)
    requires |s| == width * height * 4
    requires AsI32(x) + SquareSize <= 0 || AsI32(y) + SquareSize <= 0 || AsI32(x) >= width || AsI32(y) >= height
    ensures Apply(s, width, Rect(x, y)) == s
  {
    SquareOffBuffer(s, width, height, AsI32(x), AsI32(y));
  }

  /** Painting the same square twice is the same as painting it once. */
  lemma RectIdempotent(s: seq<u8>, width: nat, x: i64, y: i64)
    ensures Apply(Apply(s, width, Rect(x, y)), width, Rect(x, y)) == Apply(s, width, Rect(x, y))
  {
  }

  /** On a 10 x 10 buffer the square at (-10, -10) spans pixels -10..39
      in both directions, so it covers the whole buffer: every byte turns
      255. */
  lemma {:induction false} CoveringScenario(s: seq<u8>)
    requires |s| == 10 * 10 * 4
    ensures Apply(s, 10, Rect(-10, -10)) == seq(|s|, k => 255)
  {
    var t := Apply(s, 10, Rect(-10, -10));
    forall k | 0 <= k < |s| ensures t[k] == 255 {
      Coordinates(10, 10, k / 4);
    }
  }

  /** The square at (-50, -50) ends just before the buffer's top-left
      corner and changes nothing. */
  lemma OffTopLeftScenario(s: seq<u8>)
    requires |s| == 10 * 10 * 4
    ensures Apply(s, 10, Rect(-50, -50)) == s
  {
    RectOffBuffer(s, 10, 10, -50, -50);
  }

  /** On a 10 x 10 buffer the square at (5, 5) paints exactly the
      bottom-right quarter, pixels (5..10, 5..10), and leaves the rest. */
  lemma BottomRightQuarterScenario(s: seq<u8>, px: int, py: int)
    requires |s| == 10 * 10 * 4
    requires 0 <= px < 10 && 0 <= py < 10
    ensures PixelAt(Apply(s, 10, Rect(5, 5)), py * 10 + px) ==
      if px >= 5 && py >= 5 then White else PixelAt(s, py * 10 + px)
  {
    RectPixels(s, 10, 10, 5, 5, px, py);
  }

  /** A frame whose first call is `set_background` does not depend on what
      the buffer held before the frame. */
  lemma {:induction false} FrameStartingWithBackground(s1: seq<u8>, s2: seq<u8>, width: nat, bg: Draw, rest: seq<Draw>)
    requires |s1| == |s2| && bg.Background?
    ensures ApplyAll(s1, width, [bg] + rest) == ApplyAll(s2, width, [bg] + rest)
  {
    if rest == [] {
      assert ApplyAll(s1, width, [bg]) == Apply(ApplyAll(s1, width, []), width, bg);
      assert ApplyAll(s2, width, [bg]) == Apply(ApplyAll(s2, width, []), width, bg);
    } else {
      var ds := [bg] + rest;
      assert ds[..|ds| - 1] == [bg] + rest[..|rest| - 1];
      FrameStartingWithBackground(s1, s2, width, bg, rest[..|rest| - 1]);
    }
  }
}
