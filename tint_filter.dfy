/**
 * TintPixels: the walk over a locked 32-bit BGRA pixel buffer that recolours
 * "orange" pixels. The floating-point HSL arithmetic is abstracted into a
 * ColourModel; what stays exact is which bytes the walk reads and writes, the
 * alpha test, the grey default hue and the inclusive hue band [15, 45].
 */
module TintFilter {
  import opened Wrappers
  import opened ByteCodec

  /** The colour bytes of one pixel, in memory order: blue, green, red. */
  datatype Colour = Colour(b: byte, g: byte, r: byte)

  /**
   * The floating-point parts of the filter, left uninterpreted:
   * `chromaticHue` is the hue in degrees of a pixel that is not grey, and
   * `atTargetHue` is the pixel converted back from HSL with its hue set to 195.
   */
  datatype ColourModel = ColourModel(chromaticHue: Colour -> real, atTargetHue: Colour -> Colour)

  const LowHue: real := 15.0
  const HighHue: real := 45.0

  /** A canonical locked bitmap: width, height, row stride in bytes and the BGRA bytes. */
  datatype Bitmap = Bitmap(width: nat, height: nat, stride: nat, pixels: seq<byte>)

  /** Byte offset of row y: y * stride, written as a running sum (see RowStartIsProduct). */
  function RowStart(y: nat, stride: nat): nat
  {
    if y == 0 then 0 else RowStart(y - 1, stride) + stride
  }

  lemma {:induction false} RowStartIsProduct(y: nat, stride: nat)
    ensures RowStart(y, stride) == y * stride
  {
    if y > 0 {
      RowStartIsProduct(y - 1, stride);
      assert y * stride == (y - 1) * stride + stride;
    }
  }

  lemma {:induction false} RowStartMonotone(y: nat, n: nat, stride: nat)
    requires y <= n
    ensures RowStart(y, stride) <= RowStart(n, stride)
    decreases n
  {
    if y < n {
      RowStartMonotone(y, n - 1, stride);
    }
  }

  /** Rows of 4*width bytes, `stride` apart, the last one ending inside the buffer. */
  predicate WellFormed(width: nat, height: nat, stride: nat, size: nat)
  {
    4 * width <= stride && RowStart(height, stride) <= size
  }

  /** What LockBits(PixelFormat32bppARGB) hands out: rows of 4*width bytes, `stride` apart, all inside the buffer. */
  type LockedBitmap = b: Bitmap | WellFormed(b.width, b.height, b.stride, |b.pixels|)
    witness Bitmap(0, 0, 0, [])

  /**
   * The hue the filter computes. A pixel with max == min channel has d == 0,
   * below the 1e-6 threshold, and gets the default hue 0; any two different
   * byte values differ by at least 1/255, so every other pixel takes the
   * chromatic branch.
   */
  function Hue(c: Colour, m: ColourModel): (h: real)
    ensures c.b == c.g == c.r ==> h == 0.0
  {
    if c.b == c.g && c.g == c.r then 0.0 else m.chromaticHue(c)
  }

  /** The new colour of a visible pixel, or None when its hue is outside the band and it is left as it is. */
  function Recolour(c: Colour, m: ColourModel): (r: Option<Colour>)
    ensures r.Some? <==> LowHue <= Hue(c, m) <= HighHue
    ensures r.Some? ==> r.value == m.atTargetHue(c)
  {
    var h := Hue(c, m);
    if h < LowHue || h > HighHue then None else Some(m.atTargetHue(c))
  }

  /** Grey pixels get hue 0, which lies outside the band: they are never recoloured. */
  lemma GreyNeverRecoloured(v: byte, m: ColourModel)
    ensures Recolour(Colour(v, v, v), m) == None
  {
  }

  /** The four BGRA bytes of one pixel after the filter. */
  function TintedPixel(px: seq<byte>, m: ColourModel): (r: seq<byte>)
    requires |px| == 4
    ensures |r| == 4
  {
    if px[3] == 0 then px
    else match Recolour(Colour(px[0], px[1], px[2]), m)
      case None => px
      case Some(n) => [n.b, n.g, n.r, px[3]]
  }

  /**
   * What the filter does to one pixel: alpha is never written, a transparent
   * pixel is left as it is, a pixel changes only if its hue is in the band,
   * and a visible pixel in the band takes the colour at the target hue.
   */
  lemma TintedPixelSpec(px: seq<byte>, m: ColourModel)
    requires |px| == 4
    ensures TintedPixel(px, m)[3] == px[3]
    ensures px[3] == 0 ==> TintedPixel(px, m) == px
    ensures TintedPixel(px, m) != px ==> Recolour(Colour(px[0], px[1], px[2]), m).Some?
    ensures Recolour(Colour(px[0], px[1], px[2]), m).Some? && px[3] != 0 ==>
      var n := m.atTargetHue(Colour(px[0], px[1], px[2]));
      TintedPixel(px, m)[..3] == [n.b, n.g, n.r]
  {
  }

  /** The buffer after the loop body has run for the pixel starting at byte p. */
  function TintAt(s: seq<byte>, p: nat, m: ColourModel): (r: seq<byte>)
    requires p + 4 <= |s|
    ensures |r| == |s|
  {
    if s[p + 3] == 0 then s
    else match Recolour(Colour(s[p], s[p + 1], s[p + 2]), m)
      case None => s
      case Some(n) => s[p + 2 := n.r][p + 1 := n.g][p := n.b]
  }

  /** The buffer after the first x pixels of the row starting at byte `start`. */
  function TintRow(s: seq<byte>, start: nat, x: nat, m: ColourModel): (r: seq<byte>)
    requires start + 4 * x <= |s|
    ensures |r| == |s|
    decreases x
  {
    if x == 0 then s else TintAt(TintRow(s, start, x - 1, m), start + 4 * (x - 1), m)
  }

  /** The buffer after the first y rows. */
  function TintRows(s: seq<byte>, width: nat, stride: nat, y: nat, m: ColourModel): (r: seq<byte>)
    requires WellFormed(width, y, stride, |s|)
    ensures |r| == |s|
    decreases y
  {
    if y == 0 then s
    else TintRow(TintRows(s, width, stride, y - 1, m), RowStart(y - 1, stride), width, m)
  }

  /** One more pixel of a row pass. */
  lemma TintRowStep(s: seq<byte>, start: nat, x: nat, m: ColourModel)
    requires start + 4 * (x + 1) <= |s|
    ensures TintRow(s, start, x + 1, m) == TintAt(TintRow(s, start, x, m), start + 4 * x, m)
  {
  }

  /** One more row of the walk. */
  lemma TintRowsStep(s: seq<byte>, width: nat, stride: nat, y: nat, m: ColourModel)
    requires WellFormed(width, y + 1, stride, |s|)
    ensures WellFormed(width, y, stride, |s|)
    ensures TintRows(s, width, stride, y + 1, m) == TintRow(TintRows(s, width, stride, y, m), RowStart(y, stride), width, m)
  {
  }

  /** The filter applied to a whole locked bitmap; only its pixel bytes change. */
  function TintBitmap(bmp: LockedBitmap, m: ColourModel): (r: LockedBitmap)
    ensures r.width == bmp.width && r.height == bmp.height && r.stride == bmp.stride
    ensures |r.pixels| == |bmp.pixels|
  {
    bmp.(pixels := TintRows(bmp.pixels, bmp.width, bmp.stride, bmp.height, m))
  }

  /** The loop body for one pixel: skip it when transparent or outside the band, else write B, G, R. */
  method TintPixelAt(pixels: array<byte>, px: nat, m: ColourModel)
    requires px + 4 <= pixels.Length
    modifies pixels
    ensures pixels[..] == TintAt(old(pixels[..]), px, m)
  {
    if pixels[px + 3] == 0 {
      return;
    }
    var c := Colour(pixels[px], pixels[px + 1], pixels[px + 2]);
    var h := Hue(c, m);
    if h < LowHue || h > HighHue {
      return;
    }
    var n := m.atTargetHue(c);
    pixels[px + 2] := n.r;
    pixels[px + 1] := n.g;
    pixels[px] := n.b;
  }

  /** The inner loop: the pixels of the row starting at byte `row`, left to right. */
  method TintRowPass(pixels: array<byte>, row: nat, width: nat, m: ColourModel)
    requires row + 4 * width <= pixels.Length
    modifies pixels
    ensures pixels[..] == TintRow(old(pixels[..]), row, width, m)
  {
    for x := 0 to width
      invariant pixels[..] == TintRow(old(pixels[..]), row, x, m)
    {
      TintRowStep(old(pixels[..]), row, x, m);
      TintPixelAt(pixels, row + 4 * x, m);
    }
  }

  /** Row by row, pixel by pixel; the colour bytes of each visible band pixel are rewritten in place. */
  method TintPixels(pixels: array<byte>, width: nat, height: nat, stride: nat, m: ColourModel)
    requires WellFormed(width, height, stride, pixels.Length)
    modifies pixels
    ensures pixels[..] == TintRows(old(pixels[..]), width, stride, height, m)
  {
    for y := 0 to height
      invariant WellFormed(width, y, stride, pixels.Length)
      invariant pixels[..] == TintRows(old(pixels[..]), width, stride, y, m)
    {
      RowStartMonotone(y + 1, height, stride);
      RowStartIsProduct(y, stride);
      var row := y * stride;
      TintRowPass(pixels, row, width, m);
      TintRowsStep(old(pixels[..]), width, stride, y, m);
    }
  }

  // ---- What the walk touches ----

  lemma TintAtEffect(s: seq<byte>, p: nat, m: ColourModel)
    requires p + 4 <= |s|
    ensures TintAt(s, p, m)[p..p + 4] == TintedPixel(s[p..p + 4], m)
    ensures forall k :: 0 <= k < |s| && (k < p || k >= p + 3) ==> TintAt(s, p, m)[k] == s[k]
  {
  }

  /** A row pass writes only inside [start, start + 4*x). */
  lemma {:induction false} TintRowFrame(s: seq<byte>, start: nat, x: nat, m: ColourModel, k: nat)
    requires start + 4 * x <= |s| && k < |s|
    requires k < start || k >= start + 4 * x
    ensures TintRow(s, start, x, m)[k] == s[k]
    decreases x
  {
    if x > 0 {
      TintRowFrame(s, start, x - 1, m, k);
      TintAtEffect(TintRow(s, start, x - 1, m), start + 4 * (x - 1), m);
    }
  }

  /** Pixel j of a row pass is TintedPixel of that pixel's original bytes. */
  lemma {:induction false} TintRowPixel(s: seq<byte>, start: nat, x: nat, m: ColourModel, j: nat)
    requires start + 4 * x <= |s| && j < x
    ensures TintRow(s, start, x, m)[start + 4 * j .. start + 4 * j + 4]
         == TintedPixel(s[start + 4 * j .. start + 4 * j + 4], m)
    decreases x
  {
    var p := start + 4 * j;
    var last := start + 4 * (x - 1);
    var prev := TintRow(s, start, x - 1, m);
    assert TintRow(s, start, x, m) == TintAt(prev, last, m);
    if j == x - 1 {
      assert prev[p..p + 4] == s[p..p + 4] by {
        TintRowFrameSlice(s, start, x - 1, m, p, p + 4);
      }
      assert TintAt(prev, last, m)[last..last + 4] == TintedPixel(prev[last..last + 4], m) by {
        TintAtEffect(prev, last, m);
      }
    } else {
      assert prev[p..p + 4] == TintedPixel(s[p..p + 4], m) by {
        TintRowPixel(s, start, x - 1, m, j);
      }
      TintAtFrameSlice(prev, last, m, p, p + 4);
    }
  }

  /** Bytes before the pixel at p are left alone by its step. */
  lemma TintAtFrameSlice(s: seq<byte>, p: nat, m: ColourModel, lo: nat, hi: nat)
    requires p + 4 <= |s| && lo <= hi <= p
    ensures TintAt(s, p, m)[lo..hi] == s[lo..hi]
  {
    TintAtEffect(s, p, m);
  }

  /** The first y rows write nothing at or beyond byte y*stride. */
  lemma {:induction false} TintRowsFrame(s: seq<byte>, width: nat, stride: nat, y: nat, m: ColourModel, k: nat)
    requires WellFormed(width, y, stride, |s|) && RowStart(y, stride) <= k < |s|
    ensures TintRows(s, width, stride, y, m)[k] == s[k]
    decreases y
  {
    if y > 0 {
      TintRowsFrame(s, width, stride, y - 1, m, k);
      TintRowFrame(TintRows(s, width, stride, y - 1, m), RowStart(y - 1, stride), width, m, k);
    }
  }

  lemma TintRowsFrameSlice(s: seq<byte>, width: nat, stride: nat, y: nat, m: ColourModel, lo: nat, hi: nat)
    requires WellFormed(width, y, stride, |s|) && RowStart(y, stride) <= lo <= hi <= |s|
    ensures TintRows(s, width, stride, y, m)[lo..hi] == s[lo..hi]
  {
    forall k | lo <= k < hi ensures TintRows(s, width, stride, y, m)[k] == s[k] {
      TintRowsFrame(s, width, stride, y, m, k);
    }
  }

  lemma TintRowFrameSlice(s: seq<byte>, start: nat, x: nat, m: ColourModel, lo: nat, hi: nat)
    requires start + 4 * x <= |s| && lo <= hi <= |s| && (hi <= start || start + 4 * x <= lo)
    ensures TintRow(s, start, x, m)[lo..hi] == s[lo..hi]
  {
    forall k | lo <= k < hi ensures TintRow(s, start, x, m)[k] == s[k] {
      TintRowFrame(s, start, x, m, k);
    }
  }

  /** Pixel x of a row pass over a buffer whose bytes there are `orig`'s comes out as TintedPixel of `orig`'s bytes. */
  lemma RowPassPixel(prev: seq<byte>, orig: seq<byte>, start: nat, width: nat, m: ColourModel, x: nat)
    requires start + 4 * width <= |prev| == |orig| && x < width
    requires prev[start + 4 * x .. start + 4 * x + 4] == orig[start + 4 * x .. start + 4 * x + 4]
    ensures TintRow(prev, start, width, m)[start + 4 * x .. start + 4 * x + 4]
         == TintedPixel(orig[start + 4 * x .. start + 4 * x + 4], m)
  {
    TintRowPixel(prev, start, width, m, x);
  }

  /** A pixel of row y, the last row processed, comes out as TintedPixel of its original bytes. */
  lemma LastRowPixel(s: seq<byte>, width: nat, stride: nat, y: nat, m: ColourModel, x: nat)
    requires WellFormed(width, y + 1, stride, |s|) && x < width
    ensures RowStart(y, stride) + 4 * x + 4 <= |s|
    ensures TintRows(s, width, stride, y + 1, m)[RowStart(y, stride) + 4 * x .. RowStart(y, stride) + 4 * x + 4]
         == TintedPixel(s[RowStart(y, stride) + 4 * x .. RowStart(y, stride) + 4 * x + 4], m)
  {
    var start := RowStart(y, stride);
    var p := start + 4 * x;
    var prev := TintRows(s, width, stride, y, m);
    assert prev[p..p + 4] == s[p..p + 4] by {
      TintRowsFrameSlice(s, width, stride, y, m, p, p + 4);
    }
    RowPassPixel(prev, s, start, width, m, x);
  }

  /** Processing the last row leaves the pixels of every earlier row as they were. */
  lemma LastRowLeavesEarlierRows(s: seq<byte>, width: nat, stride: nat, height: nat, m: ColourModel, y: nat, x: nat)
    requires WellFormed(width, height, stride, |s|) && y + 1 < height && x < width
    ensures RowStart(y, stride) + 4 * x + 4 <= RowStart(height - 1, stride)
    ensures TintRows(s, width, stride, height, m)[RowStart(y, stride) + 4 * x .. RowStart(y, stride) + 4 * x + 4]
         == TintRows(s, width, stride, height - 1, m)[RowStart(y, stride) + 4 * x .. RowStart(y, stride) + 4 * x + 4]
  {
    RowStartMonotone(y + 1, height - 1, stride);
    var p := RowStart(y, stride) + 4 * x;
    var start := RowStart(height - 1, stride);
    var prev := TintRows(s, width, stride, height - 1, m);
    TintRowFrameSlice(prev, start, width, m, p, p + 4);
  }

  /**
   * Every pixel (x, y) inside the image ends up as TintedPixel of its own
   * original four bytes: alpha kept, transparent pixels untouched, visible
   * pixels recoloured exactly when their hue is in the band.
   */
  lemma {:induction false} TintRowsPixel(s: seq<byte>, width: nat, stride: nat, height: nat, m: ColourModel, y: nat, x: nat)
    requires WellFormed(width, height, stride, |s|) && y < height && x < width
    ensures RowStart(y, stride) + 4 * x + 4 <= |s|
    ensures TintRows(s, width, stride, height, m)[RowStart(y, stride) + 4 * x .. RowStart(y, stride) + 4 * x + 4]
         == TintedPixel(s[RowStart(y, stride) + 4 * x .. RowStart(y, stride) + 4 * x + 4], m)
    decreases height
  {
    RowStartMonotone(y + 1, height, stride);
    if y + 1 == height {
      LastRowPixel(s, width, stride, y, m, x);
      assert TintRows(s, width, stride, y + 1, m) == TintRows(s, width, stride, height, m);
    } else {
      LastRowLeavesEarlierRows(s, width, stride, height, m, y, x);
      TintRowsPixel(s, width, stride, height - 1, m, y, x);
    }
  }

  /** The row padding [4*width, stride) of every row is never touched. */
  lemma {:induction false} TintRowsPadding(s: seq<byte>, width: nat, stride: nat, height: nat, m: ColourModel, y: nat, o: nat)
    requires WellFormed(width, height, stride, |s|) && y < height && 4 * width <= o < stride
    ensures RowStart(y, stride) + o < |s|
    ensures TintRows(s, width, stride, height, m)[RowStart(y, stride) + o] == s[RowStart(y, stride) + o]
    decreases height
  {
    RowStartMonotone(y + 1, height, stride);
    var k := RowStart(y, stride) + o;
    var start := RowStart(height - 1, stride);
    var prev := TintRows(s, width, stride, height - 1, m);
    if y == height - 1 {
      TintRowFrame(prev, start, width, m, k);
      TintRowsFrame(s, width, stride, height - 1, m, k);
    } else {
      RowStartMonotone(y + 1, height - 1, stride);
      TintRowFrame(prev, start, width, m, k);
      TintRowsPadding(s, width, stride, height - 1, m, y, o);
    }
  }

  /** Bytes past the last row, height*stride and beyond, are never touched. */
  lemma TintRowsBeyondImage(s: seq<byte>, width: nat, stride: nat, height: nat, m: ColourModel, k: nat)
    requires WellFormed(width, height, stride, |s|) && RowStart(height, stride) <= k < |s|
    ensures TintRows(s, width, stride, height, m)[k] == s[k]
  {
    TintRowsFrame(s, width, stride, height, m, k);
  }
}
