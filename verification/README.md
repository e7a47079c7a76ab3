# Normal-map and material-map core of the texture generator

A Dafny model of the pixel-buffer core of `script.js`, the browser tool that turns
one source image into a tangent-space normal map and packs metallic, roughness and
ambient-occlusion inputs into one material map. Three parts are modelled:

- **Clamped luminance sampling** (`sample`). A coordinate outside the image is
  clamped to the nearest valid column and row. The sampler then reads the RGBA8
  pixel at `(y * width + x) * 4` and weights it `0.299 R + 0.587 G + 0.114 B`.
- **The normal-map pass** (`updateNormalMap`). For each pixel it gathers the eight
  clamped neighbours and computes the Sobel gradients `dx` and `dy`. It encodes the
  normal of `(dx, dy, 255 / strength)` into red, green and blue, and sets alpha to
  255. It then optionally flips the stored red and/or green byte as `255 - byte`.
- **The material packing pass** (`updateMaterialMap`). Each channel canvas is either
  an uploaded map drawn at the source's size or a solid fill at a slider level. The
  pass packs them pixel by pixel as `(metallic.R, roughness.R, ao.R, 255)`.

Modules, in dependency order:

- `Pixels` (`pixels.dfy`): bytes, images and `Clamp`. It also holds the pixel-offset
  arithmetic, luminance, the clamped sampler and a generic row-major `Raster`.
- `Sobel` (`sobel.dfy`): the eight-neighbour gather and the two gradient formulas.
  It also gives the 3x3 Sobel kernels as an independent reference definition.
- `NormalMap` (`normal_map.dfy`): the per-pixel rule and the buffer it defines. It
  also holds the nested pixel loop that builds that buffer.
- `MaterialMap` (`material_map.dfy`): the channel canvases, the packed buffer and
  the packing loop.
- `Pipeline` (`pipeline.dfy`): the buffer state and its entry points. These are
  loading a source, regenerating each map, and the no-source guard. A source with
  zero width or height makes the canvas image-data calls throw `IndexSizeError`.
  That source is either an image assigned at line 215 but not decoded yet (or never
  decoded) or a decoded image of zero size. The throw is modelled as a `Status`
  result that leaves the canvases unchanged.

Normalising `(dx, dy, 255 / strength)` is floating-point work, and so is encoding each
component `c` as `(c * 0.5 + 0.5) * 255` into a clamped byte. Both are kept behind a
function parameter `enc: (real, real, real) -> Rgb`, which receives
`(dx, dy, strength)`. Every property holds for every such encoder, except that the
concrete zero-gradient colour is proved only for an encoder that stores that case as
the browser does (`ZeroGradientColour`). Luminance and gradients are exact `real`
arithmetic; the weights are exact decimals. The Sobel kernels are applied to the
window without flipping it, as a correlation.

## Model

| member | source | states |
|---|---|---|
| Pixels.Clamp | script.js:396-397 | A clamped coordinate is always a valid index. An in-range coordinate is kept, a negative one goes to 0, and one past the end goes to the last index. |
| Pixels.ClampIsNearest | script.js:396-397 | The clamped coordinate is at least as close to the requested one as any other valid coordinate. |
| Pixels.SampleIndex | script.js:395-398 | For any integer x and y, even negative or past the edge, the first byte read starts a pixel slot and `i + 2` stays inside the buffer. Decoding that index gives back the clamped (x, y). In range, it is pixel (x, y)'s own slot. |
| Pixels.Sample | script.js:395-400 | A sample lies in 0..255. In range, it is that pixel's weighted luminance. Anywhere, it equals the luminance at the clamped coordinate. |
| Pixels.Luminance | script.js:399 | The weighted sum lies in 0..255, and a grey pixel (R = G = B) has luminance equal to its grey level. |
| Pixels.PixelLuminance | script.js:398-399 | The luminance of any in-range pixel lies in 0..255. |
| Pixels.UniformColourLuminance | script.js:398-399 | A source whose pixels all have the same red, green and blue bytes has that colour's luminance at every pixel. |
| Pixels.UniformSample | script.js:395-399 | On an image where every pixel has luminance c, every sample at any coordinate is c. |
| Pixels.OffsetInBounds | script.js:319-338 | For 0 <= x < width and 0 <= y < height, the offset `(y * width + x) * 4` is a non-negative multiple of 4, and its slot ends within `width * height * 4`. |
| Pixels.SlotsDisjoint | script.js:334-338 | Distinct pixels get disjoint four-byte slots. |
| Pixels.EarlierPixelEarlierSlot | script.js:319-320 | In the loop's raster order, a pixel visited earlier has its whole slot before the slot of a pixel visited later. |
| Pixels.PixelOfOffset | script.js:334 | Each byte of pixel (x, y)'s slot decodes back to (x, y) with channel number c. |
| Pixels.OffsetOfPixel | script.js:334 | Each byte offset lies in the slot of the pixel it decodes to. |
| Pixels.RasterAt | script.js:334-338 | In a row-major RGBA raster, the four bytes at `(y * width + x) * 4` are the channels of pixel (x, y). |
| Pixels.RasterByte | script.js:334-338 | Every raster byte is channel `j % 4` of an in-range pixel. |
| Sobel.GatherReadsWindow | script.js:321-328 | The eight neighbour samples are the 3x3 window around (x, y) read back by compass direction: north is (x, y - 1), east is (x + 1, y), and so on. |
| Sobel.GradientX | script.js:330 | `dx` is zero whenever the left and right columns agree, which is why mirrored neighbourhoods and flat fields give no horizontal slope. |
| Sobel.GradientY | script.js:331 | `dy` is zero whenever the top and bottom rows agree, which is why mirrored neighbourhoods and flat fields give no vertical slope. |
| Sobel.GradientIsSobelCorrelation | script.js:321-331 | The two gradient formulas equal the horizontal and vertical 3x3 Sobel kernels applied to the luminance window around (x, y). |
| Sobel.SobelFormulasMatchKernels | script.js:330-331 | On any nine window values, the explicit `dx`/`dy` formulas equal the kernel-weighted sums. |
| Sobel.GradientBounds | script.js:330-331 | On source luminance, both gradients lie within plus or minus 1020. |
| Sobel.FlatFieldZeroGradient | script.js:321-331 | If every pixel has the same luminance, then `dx = dy = 0` at every coordinate, border pixels included. |
| Sobel.SingleColumnNoGradientX | script.js:321-330 | A one-pixel-wide image has `dx = 0` everywhere, because both side neighbours clamp onto the only column. |
| Sobel.SingleRowNoGradientY | script.js:321-331 | A one-pixel-high image has `dy = 0` everywhere, because both vertical neighbours clamp onto the only row. |
| NormalMap.InvertInvolutive | script.js:340-341 | Flipping a stored byte twice gives back the byte. |
| NormalMap.Store | script.js:335-341 | A stored pixel always has alpha 255. Undoing the configured flips on the stored red and green recovers exactly the encoder's colour, so the flips lose nothing. |
| NormalMap.StoreFlipsIndependently | script.js:335-341 | Turning invert-red on changes only the red byte, to its flip, whatever invert-green is. Turning invert-green on changes only the green byte, whatever invert-red is. |
| NormalMap.NormalPixelIsSobel | script.js:321-341 | The pixel stored at (x, y) is the configured store of the encoder applied to the horizontal and vertical Sobel kernels over the clamped luminance window, at the configured strength. |
| NormalMap.NormalBuffer | script.js:317 | The normal buffer has exactly as many bytes as the source. |
| NormalMap.NormalBufferAt | script.js:319-342 | The four bytes at `(y * width + x) * 4` of the normal map are the normal pixel computed at (x, y). |
| NormalMap.NormalBufferOpaque | script.js:338 | Every alpha byte of the normal map is 255. |
| NormalMap.InvertRedFlipsOnlyRed | script.js:335-341 | With invert-red on, every red byte is 255 minus the red byte stored with it off. Green, blue and alpha are unchanged, whatever the green flag is. |
| NormalMap.InvertGreenFlipsOnlyGreen | script.js:335-341 | With invert-green on, every green byte is 255 minus the green byte stored with it off. Red, blue and alpha are unchanged, whatever the red flag is. |
| NormalMap.FlatFieldNormalMap | script.js:321-338 | On a uniform-luminance source, every pixel, border included, stores the encoder's value for the zero gradient at the configured strength. The pixel depends neither on the image nor on its luminance. |
| NormalMap.FlatFieldStraightUp | script.js:321-341 | On a source whose pixels all have the same red, green and blue bytes, with an encoder that stores the zero gradient as the browser does for any strength the slider can produce, positive strength gives the straight-up normal (128, 128, 255, 255), with 127 in red or green when that axis is flipped. Zero or negative strength gives blue 0. |
| NormalMap.FlatFieldNormalBuffer | script.js:319-342 | On a uniform-luminance source, the whole normal buffer repeats one pixel: the stored zero-gradient normal. |
| NormalMap.LumaNeighbours | script.js:321-328 | The eight neighbours the gradient reads are the clamped samples at (x, y - 1), (x, y + 1), (x + 1, y), (x - 1, y) and the four diagonals, in the loop body's order. |
| NormalMap.EncodeAt | script.js:321-332 | The eight samples and two sums computed in the loop body are what the encoder receives. These are the Sobel gradients of the clamped luminance at (x, y). |
| NormalMap.NormalPrefixGrows | script.js:334-341 | Writing pixel (x, y)'s slot extends the correct prefix of the buffer by one pixel. |
| NormalMap.WriteNormalPixel | script.js:334-341 | The four bytes at `i` become the normal pixel of (x, y), flips included, and no other byte of the buffer changes. |
| NormalMap.GenerateNormalMap | script.js:319-342 | The nested row/column loop writes every pixel's slot once and yields exactly the normal buffer. |
| MaterialMap.ChannelCanvas | script.js:371-378 | A drawn channel is the drawn map. A constant channel is a source-sized canvas whose red, green and blue bytes all equal the slider level. |
| MaterialMap.Packed | script.js:384-390 | For every pixel offset i, the packed bytes are `m[i]`, `r[i]`, `a[i]` and 255. |
| MaterialMap.PackedReadsOnlyRed | script.js:385-390 | Inputs that agree on their red bytes pack to the same buffer. Only red is consulted. |
| MaterialMap.MaterialBuffer | script.js:371-390 | The packed buffer has the source's size. In every pixel, a slider-driven channel holds its level (0 gives all 0, 255 gives all 255) and a drawn channel holds its map's red byte. Alpha is 255. |
| MaterialMap.PackMaterial | script.js:384-390 | The loop steps `i` by four across the buffer and yields exactly the packed buffer. |
| Pipeline.UpdateNormalMap | script.js:309-345 | With no source loaded, nothing changes. A source of zero width or height throws `IndexSizeError` and nothing changes. Otherwise only the normal canvas is replaced, by a buffer that depends only on the source, settings and encoder. Canvas sizes stay equal to the source's. |
| Pipeline.UpdateMaterialMap | script.js:350-391 | With no source loaded, nothing changes. A source of zero width or height throws `IndexSizeError` and nothing changes. Otherwise only the material canvas is replaced, by the packing of the three channel canvases. Canvas sizes stay equal to the source's. |
| Pipeline.LoadSource | script.js:216-249 | After a load, both canvases have the source's size, and they hold the normal map and the packed material map of the new source. A source of zero size throws in the first regeneration, which leaves both canvases blank and empty. |

## Left out

- Normalising the vector, the float encode `(c * 0.5 + 0.5) * 255`, and the clamping and rounding that `Uint8ClampedArray` applies on store are floating-point and host behaviour. The model receives them as the `enc` parameter. Apart from `FlatFieldStraightUp`, no property depends on what the encoder computes.
- The division `255 / strength` happens inside `enc`. A strength of 0 makes it infinite, and normalising then gives a NaN z component. A negative strength gives a normal pointing away from the viewer (z < 0). The model passes the strength to `enc` unchanged and promises nothing about these values except through `ZeroGradientColour`.
- FlatFieldNormalMap: shows only that a flat source stores the encoder's zero-gradient value, which depends on strength. With an abstract encoder it cannot show that this is the straight-up normal. `FlatFieldStraightUp` shows it for an encoder that stores the zero gradient as the browser does for any strength the slider can produce. That behaviour of the browser is stated, not proved. Its hypothesis is equal exact luminance, and in IEEE doubles equal exact luminance does not mean equal samples. For example, (6, 23, 129) and (2, 33, 88) both have exact luminance 30.001, but the source's sums differ by one unit in the last place. On a 3x1 image of those colours, `dx` is about -1.4e-14 at x = 0, and red is stored as 127 rather than 128. The source's behaviour on such images is not covered.
- FlatFieldNormalBuffer: has the same exact-luminance hypothesis as `FlatFieldNormalMap`, with the same gap in IEEE doubles.
- Sobel.FlatFieldZeroGradient: zero gradients follow from equal exact luminance. In the source's doubles they follow only when the samples are equal doubles, as they are for a source of one colour (`FlatFieldStraightUp`).
- Pixels.Luminance: the source sums in IEEE doubles, so some grey levels come out one unit in the last place low (grey 1 gives 0.9999999999999999). The model's sum is exact, so the grey identity holds for it but not bit for bit in the source.
- ChannelCanvas: a constant channel is given as a byte level. Turning the 0..1 slider value into `rgb(v*255, ...)` and the canvas's rounding of that colour are not modelled.
- ChannelCanvas: an uploaded map is given already drawn at the source's size. `drawImage` resampling is not modelled, so the model only requires that the drawn canvas has the source's byte count.
- Pipeline.UpdateMaterialMap: the settings written to the 3D material at lines 353-359 happen before the throw for a zero-size source. They are side effects on the rendering library and are not modelled.
- Pipeline.LoadSource: after a throw, the rest of the load handler does not run, including the texture refresh and `hideLoader`. Those are display side effects.
- Texture refresh and previews after each regeneration are side effects on the rendering library.
- File reading, image decoding, texture creation and disposal (lines 203-306), the 3D scene (lines 77-199), `debounce` and the event listeners (lines 15-22, 438-488) are browser I/O, asynchronous callbacks and timers.
- `updatePreviews` and `exportImage` (lines 402-435) are canvas blits, PNG encoding and download plumbing.
