/**
 Flat RGBA8 pixel buffers as the browser's ImageData exposes them: row-major,
 four bytes (red, green, blue, alpha) per pixel, so pixel (x, y) of an image
 `width` pixels wide starts at byte (y * width + x) * 4.

 This module holds the addressing arithmetic shared by both passes and the
 clamped luminance sampler the normal-map pass reads its source through.
 */
module Pixels {

  /** One element of a Uint8ClampedArray. */
  type Byte = b: int | 0 <= b < 256

  /** A decoded RGBA8 raster. */
  datatype Image = Image(width: nat, height: nat, data: seq<Byte>) {

    /** The buffer holds exactly four bytes per pixel. */
    predicate Valid() {
      |data| == width * height * 4
    }

    /** A well-formed image with at least one pixel, the only kind that is ever sampled. */
    predicate NonEmpty() {
      Valid() && width >= 1 && height >= 1
    }

    /** True iff (x, y) names a pixel of the image. */
    predicate InRange(x: int, y: int) {
      0 <= x < width && 0 <= y < height
    }
  }

  function Min(a: int, b: int): int {
    if a < b then a else b
  }

  function Max(a: int, b: int): int {
    if a < b then b else a
  }

  /** One RGBA8 pixel. */
  datatype Rgba = Rgba(r: Byte, g: Byte, b: Byte, a: Byte)

  /** Byte `c` (0 red, 1 green, 2 blue, 3 alpha) of a pixel. */
  function ChannelOf(p: Rgba, c: int): Byte
    requires 0 <= c < 4
  {
    if c == 0 then p.r else if c == 1 then p.g else if c == 2 then p.b else p.a
  }

  /** Clamped edge addressing along one axis of length `n`: a coordinate outside
      0..n-1 is moved to the nearest valid one (not wrapped, not mirrored). */
  function Clamp(v: int, n: int): (c: int)
    requires n >= 1
    ensures 0 <= c < n
    ensures 0 <= v < n ==> c == v
    ensures v < 0 ==> c == 0
    ensures v >= n ==> c == n - 1
  {
    Max(0, Min(n - 1, v))
  }

  function Abs(v: int): nat {
    if v < 0 then -v else v
  }

  /** The clamped coordinate is the valid coordinate closest to the requested one. */
  lemma ClampIsNearest(v: int, n: int, c': int)
    requires n >= 1
    requires 0 <= c' < n
    ensures Abs(v - Clamp(v, n)) <= Abs(v - c')
  {
  }

  /** The byte offset at which pixel (x, y) starts. */
  function PixelOffset(x: int, y: int, width: int): int {
    (y * width + x) * 4
  }

  /** The pixel whose slot contains byte offset `o`: the inverse of PixelOffset. */
  function PixelOf(o: nat, width: int): (xy: (int, int))
    requires width >= 1
  {
    ((o / 4) % width, (o / 4) / width)
  }

  /** Euclidean division is determined by any decomposition k == q * w + r with 0 <= r < w. */
  lemma {:induction false} DivModUnique(k: int, w: int, q: int, r: int)
    requires w >= 1 && 0 <= r < w
    requires k == q * w + r
    ensures k / w == q && k % w == r
  {
    var d := q - k / w;
    assert d * w == k % w - r;
    if d >= 1 {
      assert false;
    } else if d <= -1 {
      assert false;
    }
  }

  /** Raster order: a pixel strictly before (x, y), earlier row or same row further
      left, has its whole four-byte slot before the slot of (x, y). */
  lemma {:induction false} EarlierPixelEarlierSlot(x: int, y: int, x': int, y': int, width: int)
    requires 0 <= x < width && 0 <= x' < width && 0 <= y && 0 <= y'
    requires y' < y || (y' == y && x' < x)
    ensures PixelOffset(x', y', width) + 4 <= PixelOffset(x, y, width)
  {
    if y' < y {
      assert y' * width + width == (y' + 1) * width;
      assert (y' + 1) * width <= y * width;
    }
  }

  /** Row y of a raster with more than y rows ends within width * height pixels. */
  lemma {:induction false} RowFits(y: int, width: nat, height: nat)
    requires 0 <= y < height
    ensures y * width + width <= width * height
  {
    assert y * width + width == (y + 1) * width;
    MulNonNegative(height - (y + 1), width);
    assert width * height == (y + 1) * width + (height - (y + 1)) * width;
  }

  /** The product of two naturals is a natural. */
  lemma {:induction false} MulNonNegative(a: nat, b: nat)
    ensures a * b >= 0
  {
    if a > 0 {
      MulNonNegative(a - 1, b);
      assert a * b == (a - 1) * b + b;
    }
  }

  /** Every pixel of a width x height image has its four-byte slot inside the
      buffer, starting at a multiple of four. */
  lemma {:induction false} OffsetInBounds(x: int, y: int, width: int, height: int)
    requires 0 <= x < width && 0 <= y < height
    ensures 0 <= PixelOffset(x, y, width)
    ensures PixelOffset(x, y, width) % 4 == 0
    ensures PixelOffset(x, y, width) + 4 <= width * height * 4
  {
    assert 0 <= y * width;
    EarlierPixelEarlierSlot(0, height, x, y, width);
    assert PixelOffset(0, height, width) == width * height * 4;
  }

  /** Distinct pixels own disjoint four-byte slots. */
  lemma {:induction false} SlotsDisjoint(x: int, y: int, x': int, y': int, width: int)
    requires 0 <= x < width && 0 <= x' < width && 0 <= y && 0 <= y'
    requires (x, y) != (x', y')
    ensures PixelOffset(x', y', width) + 4 <= PixelOffset(x, y, width)
         || PixelOffset(x, y, width) + 4 <= PixelOffset(x', y', width)
  {
    if y' < y || (y' == y && x' < x) {
      EarlierPixelEarlierSlot(x, y, x', y', width);
    } else {
      EarlierPixelEarlierSlot(x', y', x, y, width);
    }
  }

  /** Decoding the offset of a pixel gives back that pixel, and every byte of its
      slot decodes to it as well. */
  lemma {:induction false} PixelOfOffset(x: int, y: int, width: int, c: int)
    requires 0 <= x < width && 0 <= y
    requires 0 <= c < 4
    ensures PixelOffset(x, y, width) + c >= 0
    ensures PixelOf(PixelOffset(x, y, width) + c, width) == (x, y)
    ensures (PixelOffset(x, y, width) + c) % 4 == c
  {
    var k := y * width + x;
    assert 0 <= y * width;
    DivModUnique(k * 4 + c, 4, k, c);
    DivModUnique(k, width, y, x);
  }

  /** Every byte offset lies in the slot of the pixel it decodes to. */
  lemma {:induction false} OffsetOfPixel(o: nat, width: int)
    requires width >= 1
    ensures PixelOffset(PixelOf(o, width).0, PixelOf(o, width).1, width) + o % 4 == o
  {
    var k := o / 4;
    assert (k / width) * width + k % width == k;
  }

  /** The ITU-R BT.601 luma weighting of a colour. */
  function Luminance(r: Byte, g: Byte, b: Byte): (l: real)
    ensures 0.0 <= l <= 255.0
    ensures r == g && g == b ==> l == r as real
  {
    r as real * 0.299 + g as real * 0.587 + b as real * 0.114
  }

  /** The luminance of pixel (x, y), which must lie inside the image. */
  function PixelLuminance(img: Image, x: int, y: int): (l: real)
    requires img.Valid() && img.InRange(x, y)
    ensures 0.0 <= l <= 255.0
  {
    OffsetInBounds(x, y, img.width, img.height);
    var i := PixelOffset(x, y, img.width);
    Luminance(img.data[i], img.data[i + 1], img.data[i + 2])
  }

  /** The first byte `sample` reads for a requested (x, y). */
  function SampleIndex(img: Image, x: int, y: int): (i: nat)
    requires img.NonEmpty()
    ensures i % 4 == 0 && i + 2 < |img.data|
    ensures img.InRange(x, y) ==> i == PixelOffset(x, y, img.width)
    ensures PixelOf(i, img.width) == (Clamp(x, img.width), Clamp(y, img.height))
  {
    var cx := Clamp(x, img.width);
    var cy := Clamp(y, img.height);
    OffsetInBounds(cx, cy, img.width, img.height);
    PixelOfOffset(cx, cy, img.width, 0);
    PixelOffset(cx, cy, img.width)
  }

  /** Clamped luminance sampling: any integer coordinate, however far outside
      the image, reads the pixel at the nearest valid column and row. */
  function Sample(img: Image, x: int, y: int): (l: real)
    requires img.NonEmpty()
    ensures 0.0 <= l <= 255.0
    ensures img.InRange(x, y) ==> l == PixelLuminance(img, x, y)
    ensures l == PixelLuminance(img, Clamp(x, img.width), Clamp(y, img.height))
  {
    var i := SampleIndex(img, x, y);
    Luminance(img.data[i], img.data[i + 1], img.data[i + 2])
  }

  /** Every pixel of the image has luminance `c`. */
  ghost predicate UniformLuminance(img: Image, c: real)
    requires img.Valid()
  {
    forall x, y :: img.InRange(x, y) ==> PixelLuminance(img, x, y) == c
  }

  /** The colour bytes of pixel (x, y), which must lie inside the image. */
  function PixelColour(img: Image, x: int, y: int): Rgba
    requires img.Valid() && img.InRange(x, y)
  {
    OffsetInBounds(x, y, img.width, img.height);
    var i := PixelOffset(x, y, img.width);
    Rgba(img.data[i], img.data[i + 1], img.data[i + 2], img.data[i + 3])
  }

  /** Every pixel has red r, green g and blue b (alpha may vary). Unlike equal
      luminance, this makes every sample the very same sum of the same bytes. */
  ghost predicate UniformColour(img: Image, r: Byte, g: Byte, b: Byte)
    requires img.Valid()
  {
    forall x, y :: img.InRange(x, y) ==>
      PixelColour(img, x, y).r == r && PixelColour(img, x, y).g == g && PixelColour(img, x, y).b == b
  }

  /** A source of one colour has the luminance of that colour everywhere. */
  lemma UniformColourLuminance(img: Image, r: Byte, g: Byte, b: Byte)
    requires img.Valid() && UniformColour(img, r, g, b)
    ensures UniformLuminance(img, Luminance(r, g, b))
  {
    forall x, y | img.InRange(x, y)
      ensures PixelLuminance(img, x, y) == Luminance(r, g, b)
    {
      assert PixelColour(img, x, y).r == r && PixelColour(img, x, y).g == g && PixelColour(img, x, y).b == b;
    }
  }

  /** On a uniform image every sample, in range or not, sees the common luminance. */
  lemma UniformSample(img: Image, c: real, x: int, y: int)
    requires img.NonEmpty() && UniformLuminance(img, c)
    ensures Sample(img, x, y) == c
  {
    assert img.InRange(Clamp(x, img.width), Clamp(y, img.height));
  }

  /** Byte j of a raster `width` pixels wide: channel j % 4 of the pixel whose slot holds it. */
  function RasterChannel(width: nat, px: (int, int) -> Rgba, j: nat): Byte
    requires width >= 1
  {
    ChannelOf(px(PixelOf(j, width).0, PixelOf(j, width).1), j % 4)
  }

  /** The RGBA8 buffer of a width x height raster whose pixel (x, y) is `px(x, y)`. */
  function Raster(width: nat, height: nat, px: (int, int) -> Rgba): (buf: seq<Byte>)
    ensures |buf| == width * height * 4
  {
    if width == 0 then []
    else
      seq(width * height * 4, j requires 0 <= j < width * height * 4 => RasterChannel(width, px, j))
  }

  /** The four bytes at (y * width + x) * 4 of a raster are the channels of pixel (x, y). */
  lemma RasterAt(width: nat, height: nat, px: (int, int) -> Rgba, x: int, y: int, c: int)
    requires 0 <= x < width && 0 <= y < height && 0 <= c < 4
    ensures 0 <= PixelOffset(x, y, width) + c < width * height * 4
    ensures Raster(width, height, px)[PixelOffset(x, y, width) + c] == ChannelOf(px(x, y), c)
  {
    OffsetInBounds(x, y, width, height);
    PixelOfOffset(x, y, width, c);
  }

  /** Two buffers that agree before a slot, and both hold pixel p in that slot,
      agree up to the slot's end. */
  lemma SlotPrefixGrows(buf: seq<Byte>, spec: seq<Byte>, i: nat, p: Rgba)
    requires i + 4 <= |buf| && i + 4 <= |spec|
    requires forall j :: 0 <= j < i ==> buf[j] == spec[j]
    requires forall c :: 0 <= c < 4 ==> buf[i + c] == ChannelOf(p, c) && spec[i + c] == ChannelOf(p, c)
    ensures forall j :: 0 <= j < i + 4 ==> buf[j] == spec[j]
  {
    forall j | i <= j < i + 4
      ensures buf[j] == spec[j]
    {
      var c := j - i;
      assert buf[i + c] == ChannelOf(p, c) && spec[i + c] == ChannelOf(p, c);
    }
  }

  /** Every byte of a raster is channel j % 4 of the pixel whose slot holds it, and
      that pixel lies inside the raster. */
  lemma RasterByte(width: nat, height: nat, px: (int, int) -> Rgba, j: int)
    requires 0 <= j < width * height * 4
    ensures width >= 1
    ensures 0 <= PixelOf(j, width).0 < width && 0 <= PixelOf(j, width).1 < height
    ensures Raster(width, height, px)[j] == ChannelOf(px(PixelOf(j, width).0, PixelOf(j, width).1), j % 4)
  {
    var k := j / 4;
    assert k < width * height;
    RowBelowHeight(k, width, height);
  }

  /** A raster index below width * height lies in a row below height. */
  lemma {:induction false} RowBelowHeight(k: nat, width: nat, height: nat)
    requires width >= 1 && k < width * height
    ensures k / width < height
  {
    var q := k / width;
    assert q * width <= k;
  }
}
