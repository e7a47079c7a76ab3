/**
 The normal-map pass: for every pixel of the source, the Sobel gradients of
 its clamped luminance neighbourhood are turned into a tangent-space normal,
 encoded into red, green and blue, made opaque, and optionally flipped on the
 red and green axes.

 Normalising (dx, dy, 255 / strength) and encoding each component c as
 (c * 0.5 + 0.5) * 255 into a clamped byte is floating-point work done by the
 rendering library and the browser; it is kept behind an `Encoder` parameter,
 and every property below holds for every encoder.
 */
module NormalMap {
  import opened Pixels
  import opened Sobel

  /** The three colour bytes the encoder stores for one normal. */
  datatype Rgb = Rgb(r: Byte, g: Byte, b: Byte)

  /** Maps (dx, dy, strength) to the stored colour of normalize(dx, dy, 255 / strength). */
  type Encoder = (real, real, real) -> Rgb

  /** The user-facing controls of the pass: bump strength and the two axis flips. */
  datatype Settings = Settings(strength: real, invertR: bool, invertG: bool)

  /** Flips a stored byte, as the invert checkboxes do. */
  function Invert(b: Byte): (r: Byte)
    ensures r + b == 255
  {
    255 - b
  }

  /** Flipping twice gives back the byte, so a flipped map still carries the
      encoder's value. */
  lemma InvertInvolutive(b: Byte)
    ensures Invert(Invert(b)) == b
  {
  }

  /** What the pass stores for an encoded normal: full alpha, then the red and
      green flips applied independently to the stored bytes. */
  function Store(v: Rgb, cfg: Settings): (p: Rgba)
    ensures p.a == 255
    ensures (if cfg.invertR then Invert(p.r) else p.r) == v.r
    ensures (if cfg.invertG then Invert(p.g) else p.g) == v.g
    ensures p.b == v.b
  {
    Rgba(
      if cfg.invertR then Invert(v.r) else v.r,
      if cfg.invertG then Invert(v.g) else v.g,
      v.b,
      255)
  }

  /** The two flags act on the stored pixel independently: turning invert-red on
      flips the red byte and nothing else, whatever invert-green is, and likewise
      for invert-green. */
  lemma StoreFlipsIndependently(v: Rgb, strength: real, invertR: bool, invertG: bool)
    ensures var plain := Store(v, Settings(strength, false, invertG));
            Store(v, Settings(strength, true, invertG)) == plain.(r := Invert(plain.r))
    ensures var plain := Store(v, Settings(strength, invertR, false));
            Store(v, Settings(strength, invertR, true)) == plain.(g := Invert(plain.g))
  {
  }

  /** The normal-map pixel at (x, y). */
  function NormalPixel(img: Image, x: int, y: int, cfg: Settings, enc: Encoder): Rgba
    requires img.NonEmpty()
  {
    var nb := Gather(Luma(img), x, y);
    Store(enc(GradientX(nb), GradientY(nb), cfg.strength), cfg)
  }

  /** The normal-map pixel at (x, y) is the stored encoding of the horizontal and
      vertical Sobel kernels applied to the clamped luminance around (x, y). */
  lemma NormalPixelIsSobel(img: Image, x: int, y: int, cfg: Settings, enc: Encoder)
    requires img.NonEmpty()
    ensures NormalPixel(img, x, y, cfg, enc)
         == Store(enc(Correlate(Luma(img), x, y, KernelX), Correlate(Luma(img), x, y, KernelY), cfg.strength), cfg)
  {
    GradientIsSobelCorrelation(Luma(img), x, y);
  }

  /** The whole normal-map buffer: same size as the source, pixel (x, y) in the
      slot starting at (y * width + x) * 4. */
  function NormalBuffer(img: Image, cfg: Settings, enc: Encoder): (buf: seq<Byte>)
    requires img.Valid()
    ensures |buf| == |img.data|
  {
    if img.width == 0 || img.height == 0 then []
    else Raster(img.width, img.height, (x, y) => NormalPixel(img, x, y, cfg, enc))
  }

  /** Pixel (x, y) of the buffer is exactly the normal-map pixel computed at (x, y). */
  lemma NormalBufferAt(img: Image, cfg: Settings, enc: Encoder, x: int, y: int, c: int)
    requires img.NonEmpty() && img.InRange(x, y) && 0 <= c < 4
    ensures 0 <= PixelOffset(x, y, img.width) + c < |img.data|
    ensures NormalBuffer(img, cfg, enc)[PixelOffset(x, y, img.width) + c]
         == ChannelOf(NormalPixel(img, x, y, cfg, enc), c)
  {
    RasterAt(img.width, img.height, (x, y) => NormalPixel(img, x, y, cfg, enc), x, y, c);
  }

  /** Every pixel of the normal map is fully opaque. */
  lemma NormalBufferOpaque(img: Image, cfg: Settings, enc: Encoder, j: int)
    requires img.Valid() && 0 <= j < |img.data| && j % 4 == 3
    ensures NormalBuffer(img, cfg, enc)[j] == 255
  {
    RasterByte(img.width, img.height, (x, y) => NormalPixel(img, x, y, cfg, enc), j);
  }

  /** Invert-red: every red byte of the flipped map is 255 minus the red byte of
      the unflipped map, and every green, blue and alpha byte is the same. */
  lemma InvertRedFlipsOnlyRed(img: Image, strength: real, invertG: bool, enc: Encoder, j: int)
    requires img.Valid() && 0 <= j < |img.data|
    ensures var plain := NormalBuffer(img, Settings(strength, false, invertG), enc);
            var flipped := NormalBuffer(img, Settings(strength, true, invertG), enc);
            if j % 4 == 0 then flipped[j] == 255 - plain[j] else flipped[j] == plain[j]
  {
    var plainPx := (x, y) => NormalPixel(img, x, y, Settings(strength, false, invertG), enc);
    var flippedPx := (x, y) => NormalPixel(img, x, y, Settings(strength, true, invertG), enc);
    RasterByte(img.width, img.height, plainPx, j);
    RasterByte(img.width, img.height, flippedPx, j);
  }

  /** Invert-green: every green byte of the flipped map is 255 minus the green
      byte of the unflipped map, and every red, blue and alpha byte is the same. */
  lemma InvertGreenFlipsOnlyGreen(img: Image, strength: real, invertR: bool, enc: Encoder, j: int)
    requires img.Valid() && 0 <= j < |img.data|
    ensures var plain := NormalBuffer(img, Settings(strength, invertR, false), enc);
            var flipped := NormalBuffer(img, Settings(strength, invertR, true), enc);
            if j % 4 == 1 then flipped[j] == 255 - plain[j] else flipped[j] == plain[j]
  {
    var plainPx := (x, y) => NormalPixel(img, x, y, Settings(strength, invertR, false), enc);
    var flippedPx := (x, y) => NormalPixel(img, x, y, Settings(strength, invertR, true), enc);
    RasterByte(img.width, img.height, plainPx, j);
    RasterByte(img.width, img.height, flippedPx, j);
  }

  /** Flat field: on a source of uniform luminance every pixel of the normal map,
      border pixels included, holds what the encoder gives for the zero gradient at
      this strength. The pixel does not depend on the image or its luminance. */
  lemma FlatFieldNormalMap(img: Image, c: real, cfg: Settings, enc: Encoder, x: int, y: int)
    requires img.NonEmpty() && UniformLuminance(img, c) && img.InRange(x, y)
    ensures NormalPixel(img, x, y, cfg, enc) == Store(enc(0.0, 0.0, cfg.strength), cfg)
  {
    FlatFieldZeroGradient(img, c, x, y);
  }

  /** What the browser stores for the zero gradient, for any strength s the slider
      can produce: normalising (0, 0, 255 / s) gives (0, 0, 1) for s > 0 and
      (0, 0, -1) for s < 0; for s == 0 the z component is 0 times infinity, which
      is NaN. Each component c becomes (c * 0.5 + 0.5) * 255, so x and y store
      127.5, which a clamped byte array rounds to the even 128, and z stores 255,
      0, or 0 for NaN. Positive strengths so small that 255 / s overflows in
      doubles behave differently and are outside the slider's range. */
  function ZeroGradientColour(strength: real): Rgb {
    Rgb(128, 128, if strength > 0.0 then 255 else 0)
  }

  /** With an encoder that stores the zero gradient as the browser does, a source
      of one colour at positive strength gives the straight-up normal (128, 128,
      255), flipped on red and green as configured, in every pixel. One colour, not
      merely equal luminance: then every sample is the same sum of the same bytes,
      so the gradients are exactly zero in floating point as well. */
  lemma FlatFieldStraightUp(img: Image, r: Byte, g: Byte, b: Byte, cfg: Settings, enc: Encoder, x: int, y: int)
    requires img.NonEmpty() && UniformColour(img, r, g, b) && img.InRange(x, y)
    requires enc(0.0, 0.0, cfg.strength) == ZeroGradientColour(cfg.strength)
    ensures cfg.strength > 0.0 ==>
      NormalPixel(img, x, y, cfg, enc) == Rgba(
        if cfg.invertR then 127 else 128, if cfg.invertG then 127 else 128, 255, 255)
    ensures cfg.strength <= 0.0 ==> NormalPixel(img, x, y, cfg, enc).b == 0
  {
    UniformColourLuminance(img, r, g, b);
    FlatFieldNormalMap(img, Luminance(r, g, b), cfg, enc, x, y);
  }

  /** End to end on a flat source: every byte of the normal map is the matching
      channel of the one stored zero-gradient pixel, so the whole map is uniform. */
  lemma FlatFieldNormalBuffer(img: Image, c: real, cfg: Settings, enc: Encoder, j: int)
    requires img.NonEmpty() && UniformLuminance(img, c) && 0 <= j < |img.data|
    ensures NormalBuffer(img, cfg, enc)[j] == ChannelOf(Store(enc(0.0, 0.0, cfg.strength), cfg), j % 4)
  {
    var px := (x, y) => NormalPixel(img, x, y, cfg, enc);
    RasterByte(img.width, img.height, px, j);
    var (x, y) := PixelOf(j, img.width);
    FlatFieldNormalMap(img, c, cfg, enc, x, y);
  }

  /** Proof bridge for EncodeAt: the neighbour gather over the source's field,
      unfolded into the eight `Sample` calls the loop body makes. What the gather
      means is stated by GatherReadsWindow. */
  lemma LumaNeighbours(img: Image, x: int, y: int)
    requires img.NonEmpty()
    ensures Gather(Luma(img), x, y) == Neighbours(
      Sample(img, x, y - 1), Sample(img, x, y + 1), Sample(img, x + 1, y), Sample(img, x - 1, y),
      Sample(img, x + 1, y - 1), Sample(img, x - 1, y - 1), Sample(img, x + 1, y + 1), Sample(img, x - 1, y + 1))
  {
  }

  /** The body of the pixel loop up to the encoder: the eight clamped samples
      around (x, y), the two Sobel sums, and the encoded normal. */
  method EncodeAt(img: Image, x: int, y: int, strength: real, enc: Encoder) returns (v: Rgb)
    requires img.NonEmpty()
    ensures v == enc(GradientX(Gather(Luma(img), x, y)), GradientY(Gather(Luma(img), x, y)), strength)
  {
    var n := Sample(img, x, y - 1);
    var s := Sample(img, x, y + 1);
    var e := Sample(img, x + 1, y);
    var w := Sample(img, x - 1, y);
    var ne := Sample(img, x + 1, y - 1);
    var nw := Sample(img, x - 1, y - 1);
    var se := Sample(img, x + 1, y + 1);
    var sw := Sample(img, x - 1, y + 1);

    var dx := (ne + 2.0 * e + se) - (nw + 2.0 * w + sw);
    var dy := (sw + 2.0 * s + se) - (nw + 2.0 * n + ne);
    LumaNeighbours(img, x, y);
    v := enc(dx, dy, strength);
  }

  /** Once every byte before pixel (x, y) agrees with the normal map and the four
      bytes of (x, y) hold its pixel, the buffer agrees up to the end of that slot. */
  lemma NormalPrefixGrows(img: Image, cfg: Settings, enc: Encoder, x: int, y: int, buf: seq<Byte>)
    requires img.NonEmpty() && img.InRange(x, y) && |buf| == |img.data|
    requires 0 <= PixelOffset(x, y, img.width) && PixelOffset(x, y, img.width) + 4 <= |buf|
    requires forall j :: 0 <= j < PixelOffset(x, y, img.width) ==> buf[j] == NormalBuffer(img, cfg, enc)[j]
    requires forall c :: 0 <= c < 4 ==>
      buf[PixelOffset(x, y, img.width) + c] == ChannelOf(NormalPixel(img, x, y, cfg, enc), c)
    ensures forall j :: 0 <= j < PixelOffset(x, y, img.width) + 4 ==> buf[j] == NormalBuffer(img, cfg, enc)[j]
  {
    var i := PixelOffset(x, y, img.width);
    var spec := NormalBuffer(img, cfg, enc);
    var p := NormalPixel(img, x, y, cfg, enc);
    forall c | 0 <= c < 4
      ensures spec[i + c] == ChannelOf(p, c)
    {
      NormalBufferAt(img, cfg, enc, x, y, c);
    }
    SlotPrefixGrows(buf, spec, i, p);
  }

  /** The body of the pixel loop: encodes the normal at (x, y) into the four bytes
      at i, then flips the stored red and green bytes as configured. */
  method WriteNormalPixel(img: Image, cfg: Settings, enc: Encoder, x: int, y: int, out: array<Byte>, i: int)
    requires img.NonEmpty() && img.InRange(x, y)
    requires i == PixelOffset(x, y, img.width) && 0 <= i && i + 4 <= out.Length
    modifies out
    ensures forall c :: 0 <= c < 4 ==> out[i + c] == ChannelOf(NormalPixel(img, x, y, cfg, enc), c)
    ensures forall j :: 0 <= j < out.Length && !(i <= j < i + 4) ==> out[j] == old(out[j])
  {
    var v := EncodeAt(img, x, y, cfg.strength, enc);
    out[i] := v.r;
    out[i + 1] := v.g;
    out[i + 2] := v.b;
    out[i + 3] := 255;

    if cfg.invertR { out[i] := 255 - out[i]; }
    if cfg.invertG { out[i + 1] := 255 - out[i + 1]; }
  }

  /** The pixel loop of the pass: rows top to bottom, columns left to right, each
      pixel's four bytes written once at (y * width + x) * 4 into a fresh buffer. */
  method GenerateNormalMap(img: Image, cfg: Settings, enc: Encoder) returns (buf: seq<Byte>)
    requires img.Valid()
    ensures buf == NormalBuffer(img, cfg, enc)
  {
    var width, height := img.width, img.height;
    ghost var spec := NormalBuffer(img, cfg, enc);
    var out := new Byte[|img.data|](_ => 0);
    ghost var k := 0;
    var y: int := 0;
    while y < height
      invariant 0 <= y <= height
      invariant k == y * width && 0 <= k <= width * height
      invariant forall j :: 0 <= j < k * 4 ==> out[j] == spec[j]
    {
      RowFits(y, width, height);
      var x: int := 0;
      while x < width
        invariant 0 <= x <= width
        invariant k == y * width + x && 0 <= k && k + width - x <= width * height
        invariant forall j :: 0 <= j < k * 4 ==> out[j] == spec[j]
      {
        var i := (y * width + x) * 4;
        WriteNormalPixel(img, cfg, enc, x, y, out, i);
        NormalPrefixGrows(img, cfg, enc, x, y, out[..]);
        x := x + 1;
        k := k + 1;
      }
      assert y * width + width == (y + 1) * width;
      y := y + 1;
    }
    assert k * 4 == out.Length;
    buf := out[..];
  }
}
