/**
 The tool's buffer state and its three entry points: loading a source image,
 regenerating the normal map, and regenerating the packed material map.

 The browser keeps these buffers in module-level canvases; here they are one
 immutable value threaded through the operations. The rendering side effects
 that follow a regeneration (texture refresh, previews) are not modelled.
 */
module Pipeline {
  import opened Pixels
  import opened NormalMap
  import opened MaterialMap

  datatype Option<T> = None | Some(value: T)

  /** The loaded source image, if any, and the normal-map and material canvases. */
  datatype Workspace = Workspace(source: Option<Image>, normal: seq<Byte>, material: seq<Byte>)

  /** Both output canvases have the source's dimensions. */
  predicate Sized(ws: Workspace) {
    ws.source.Some? ==>
      && ws.source.value.Valid()
      && |ws.normal| == |ws.source.value.data|
      && |ws.material| == |ws.source.value.data|
  }

  /** Every drawn channel map was drawn onto a canvas of the source's size. */
  predicate ChannelsFit(img: Image, metal: ChannelInput, rough: ChannelInput, ao: ChannelInput) {
    Fits(metal, |img.data|) && Fits(rough, |img.data|) && Fits(ao, |img.data|)
  }

  /** A freshly sized canvas: transparent black. */
  function Blank(size: nat): (buf: seq<Byte>)
    ensures |buf| == size && forall j :: 0 <= j < size ==> buf[j] == 0
  {
    seq(size, _ => 0)
  }

  /** How an entry point ends: normally, or by throwing the canvas API's
      IndexSizeError, which reading or creating image data of zero width or height
      raises. A throw leaves every canvas as it was. */
  datatype Status = Done | IndexSizeError

  /** The source has no pixels. This is the state of an image that has been
      assigned but not yet decoded (its width and height stay 0 until it loads, and
      for good if decoding fails), and of a decoded image of zero size. */
  predicate Undecoded(img: Image) {
    img.width == 0 || img.height == 0
  }

  /** Regenerates the normal map from the current source and settings. With no source
      loaded nothing changes. A source without pixels makes the image-data calls
      throw before anything is written. Otherwise only the normal canvas is replaced,
      by a buffer that depends on the source and settings alone, not on the canvas it
      replaces. */
  method UpdateNormalMap(ws: Workspace, cfg: Settings, enc: Encoder) returns (ws': Workspace, status: Status)
    requires ws.source.Some? ==> ws.source.value.Valid()
    ensures status == IndexSizeError <==> ws.source.Some? && Undecoded(ws.source.value)
    ensures status == IndexSizeError || ws.source.None? ==> ws' == ws
    ensures status == Done && ws.source.Some? ==>
      ws' == ws.(normal := NormalBuffer(ws.source.value, cfg, enc))
    ensures Sized(ws) ==> Sized(ws')
  {
    if ws.source.None? {
      return ws, Done;
    }
    var img := ws.source.value;
    if img.width == 0 || img.height == 0 {
      return ws, IndexSizeError;
    }
    var buf := GenerateNormalMap(img, cfg, enc);
    ws' := ws.(normal := buf);
    status := Done;
  }

  /** Regenerates the packed material map from the three channel inputs. With no
      source loaded nothing changes. A source without pixels makes reading the
      channel canvases throw before anything is written. Otherwise only the material
      canvas is replaced. */
  method UpdateMaterialMap(ws: Workspace, metal: ChannelInput, rough: ChannelInput, ao: ChannelInput)
    returns (ws': Workspace, status: Status)
    requires ws.source.Some? ==> ws.source.value.Valid()
    requires ws.source.Some? && !Undecoded(ws.source.value) ==> ChannelsFit(ws.source.value, metal, rough, ao)
    ensures status == IndexSizeError <==> ws.source.Some? && Undecoded(ws.source.value)
    ensures status == IndexSizeError || ws.source.None? ==> ws' == ws
    ensures status == Done && ws.source.Some? ==>
      ws' == ws.(material := MaterialBuffer(ws.source.value.width, ws.source.value.height, metal, rough, ao))
    ensures Sized(ws) ==> Sized(ws')
  {
    if ws.source.None? {
      return ws, Done;
    }
    var img := ws.source.value;
    if img.width == 0 || img.height == 0 {
      return ws, IndexSizeError;
    }
    var m := ChannelCanvas(metal, img.width, img.height);
    var r := ChannelCanvas(rough, img.width, img.height);
    var a := ChannelCanvas(ao, img.width, img.height);
    var buf := PackMaterial(m, r, a);
    ws' := ws.(material := buf);
    status := Done;
  }

  /** Loading a decoded source image discards the previous state: it resizes both
      output canvases to the image's dimensions, blank, then regenerates the normal
      map and, if that did not throw, the material map. A source without pixels
      throws in the first regeneration and leaves both canvases blank and empty,
      which are then also its (empty) maps. */
  method LoadSource(img: Image, cfg: Settings, enc: Encoder,
                    metal: ChannelInput, rough: ChannelInput, ao: ChannelInput)
    returns (ws': Workspace, status: Status)
    requires img.Valid() && (!Undecoded(img) ==> ChannelsFit(img, metal, rough, ao))
    ensures status == IndexSizeError <==> Undecoded(img)
    ensures ws'.source == Some(img) && Sized(ws')
    ensures ws'.normal == NormalBuffer(img, cfg, enc)
    ensures Undecoded(img) ==> ws'.material == []
    ensures !Undecoded(img) ==> ws'.material == MaterialBuffer(img.width, img.height, metal, rough, ao)
  {
    var resized := Workspace(Some(img), Blank(|img.data|), Blank(|img.data|));
    var withNormal;
    withNormal, status := UpdateNormalMap(resized, cfg, enc);
    if status == IndexSizeError {
      return withNormal, status;
    }
    ws', status := UpdateMaterialMap(withNormal, metal, rough, ao);
  }
}
