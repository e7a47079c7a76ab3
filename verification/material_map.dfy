/**
 The material packing pass: three same-sized RGBA canvases, one per material
 channel (metallic, roughness, ambient occlusion), are packed into a single
 RGBA buffer whose pixel is (metallic red, roughness red, occlusion red, 255).

 Each channel canvas holds either an uploaded map drawn at the source's size or
 a solid fill at the channel's slider level.
 */
module MaterialMap {
  import opened Pixels

  /** How one material channel is supplied. `Drawn` holds the channel's uploaded map
      after it was drawn onto a canvas of the source's size; `Constant` is the slider
      level the canvas is filled with when no map was uploaded. */
  datatype ChannelInput = Constant(level: Byte) | Drawn(pixels: seq<Byte>)

  /** The input can be read as a canvas of `size` bytes. */
  predicate Fits(input: ChannelInput, size: nat) {
    input.Drawn? ==> |input.pixels| == size
  }

  /** The temporary canvas of one channel: the drawn map, or an opaque solid fill of
      the slider level in red, green and blue. */
  function ChannelCanvas(input: ChannelInput, width: nat, height: nat): (buf: seq<Byte>)
    requires Fits(input, width * height * 4)
    ensures |buf| == width * height * 4
    ensures input.Drawn? ==> buf == input.pixels
    ensures input.Constant? ==> forall j :: 0 <= j < |buf| && j % 4 != 3 ==> buf[j] == input.level
  {
    match input
    case Drawn(pixels) => pixels
    case Constant(level) =>
      var fill := Raster(width, height, (x, y) => Rgba(level, level, level, 255));
      assert forall j :: 0 <= j < |fill| && j % 4 != 3 ==> fill[j] == level by {
        forall j | 0 <= j < |fill| && j % 4 != 3 {
          RasterByte(width, height, (x, y) => Rgba(level, level, level, 255), j);
        }
      }
      fill
  }

  /** Byte j of the packed buffer: red of the metallic, roughness or occlusion pixel
      whose slot holds j, or full alpha. */
  function PackedByte(m: seq<Byte>, r: seq<Byte>, a: seq<Byte>, j: nat): Byte
    requires |m| == |r| == |a| && |m| % 4 == 0 && j < |m|
  {
    var base := j - j % 4;
    if j % 4 == 0 then m[base]
    else if j % 4 == 1 then r[base]
    else if j % 4 == 2 then a[base]
    else 255
  }

  /** Byte c of the four-byte slot starting at i has channel number c and belongs to that slot. */
  lemma SlotByte(i: nat, c: int)
    requires i % 4 == 0 && 0 <= c < 4
    ensures (i + c) % 4 == c && (i + c) - (i + c) % 4 == i
  {
    DivModUnique(i + c, 4, i / 4, c);
  }

  /** The packed metallic/roughness/occlusion buffer. */
  function Packed(m: seq<Byte>, r: seq<Byte>, a: seq<Byte>): (buf: seq<Byte>)
    requires |m| == |r| == |a| && |m| % 4 == 0
    ensures |buf| == |m|
    ensures forall i :: 0 <= i && i + 3 < |m| && i % 4 == 0 ==>
      buf[i] == m[i] && buf[i + 1] == r[i] && buf[i + 2] == a[i] && buf[i + 3] == 255
  {
    var buf := seq(|m|, j requires 0 <= j < |m| => PackedByte(m, r, a, j));
    assert forall i :: 0 <= i && i + 3 < |m| && i % 4 == 0 ==>
      buf[i] == m[i] && buf[i + 1] == r[i] && buf[i + 2] == a[i] && buf[i + 3] == 255 by {
      forall i | 0 <= i && i + 3 < |m| && i % 4 == 0
        ensures buf[i] == m[i] && buf[i + 1] == r[i] && buf[i + 2] == a[i] && buf[i + 3] == 255
      {
        SlotByte(i, 0);
        SlotByte(i, 1);
        SlotByte(i, 2);
        SlotByte(i, 3);
      }
    }
    buf
  }

  /** The red channel of a canvas: byte i for every pixel offset i. */
  ghost predicate SameRed(c: seq<Byte>, c': seq<Byte>)
    requires |c| == |c'|
  {
    forall i :: 0 <= i < |c| && i % 4 == 0 ==> c[i] == c'[i]
  }

  /** Only the red channel of each input is consulted: inputs that agree on their
      red bytes pack to the same buffer, whatever their green, blue and alpha. */
  lemma {:induction false} PackedReadsOnlyRed(
    m: seq<Byte>, r: seq<Byte>, a: seq<Byte>, m': seq<Byte>, r': seq<Byte>, a': seq<Byte>)
    requires |m| == |r| == |a| == |m'| == |r'| == |a'| && |m| % 4 == 0
    requires SameRed(m, m') && SameRed(r, r') && SameRed(a, a')
    ensures Packed(m, r, a) == Packed(m', r', a')
  {
    var p, p' := Packed(m, r, a), Packed(m', r', a');
    forall j | 0 <= j < |m|
      ensures p[j] == p'[j]
    {
      var base := j - j % 4;
      assert base % 4 == 0 && 0 <= base < |m|;
    }
  }

  /** The packed buffer of three channel canvases of a width x height source. A
      channel given by its slider level is that level in every pixel (level 0 gives
      all 0, level 255 all 255); a drawn channel contributes its map's red byte; and
      every pixel is opaque. */
  function MaterialBuffer(width: nat, height: nat, metal: ChannelInput, rough: ChannelInput, ao: ChannelInput): (buf: seq<Byte>)
    requires Fits(metal, width * height * 4) && Fits(rough, width * height * 4) && Fits(ao, width * height * 4)
    ensures |buf| == width * height * 4
    ensures forall i :: 0 <= i && i + 3 < |buf| && i % 4 == 0 ==>
      && buf[i] == (if metal.Constant? then metal.level else metal.pixels[i])
      && buf[i + 1] == (if rough.Constant? then rough.level else rough.pixels[i])
      && buf[i + 2] == (if ao.Constant? then ao.level else ao.pixels[i])
      && buf[i + 3] == 255
  {
    Packed(ChannelCanvas(metal, width, height), ChannelCanvas(rough, width, height), ChannelCanvas(ao, width, height))
  }

  /** The packing loop: one step per pixel, offset i advancing by four, writing the
      three red bytes and full alpha into a fresh buffer. */
  method PackMaterial(m: seq<Byte>, r: seq<Byte>, a: seq<Byte>) returns (buf: seq<Byte>)
    requires |m| == |r| == |a| && |m| % 4 == 0
    ensures buf == Packed(m, r, a)
  {
    ghost var spec := Packed(m, r, a);
    var out := new Byte[|m|](_ => 0);
    var i := 0;
    while i < out.Length
      invariant 0 <= i <= out.Length && i % 4 == 0
      invariant forall j :: 0 <= j < i ==> out[j] == spec[j]
    {
      out[i] := m[i];
      out[i + 1] := r[i];
      out[i + 2] := a[i];
      out[i + 3] := 255;
      i := i + 4;
    }
    buf := out[..];
  }
}
