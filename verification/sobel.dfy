/**
 The gradient step of the normal-map pass: the eight neighbours of a pixel,
 read through clamped addressing, and the horizontal and vertical Sobel
 responses built from them.

 The algebra is stated over an arbitrary luminance field, a function from
 integer coordinates to luminance; `Luma` is the field the pass reads, the
 clamped sampler of the source image.
 */
module Sobel {
  import opened Pixels

  /** Luminance as a function of any integer coordinate. */
  type Field = (int, int) -> real

  /** The field the normal-map pass reads: clamped luminance samples of the source. */
  function Luma(img: Image): Field
    requires img.NonEmpty()
  {
    (x, y) => Sample(img, x, y)
  }

  /** Luminance of the eight compass neighbours of one pixel. */
  datatype Neighbours = Neighbours(
    n: real, s: real, e: real, w: real,
    ne: real, nw: real, se: real, sw: real)

  /** The eight neighbours of (x, y); north is y - 1, east is x + 1. */
  function Gather(f: Field, x: int, y: int): Neighbours {
    Neighbours(
      n := f(x, y - 1),
      s := f(x, y + 1),
      e := f(x + 1, y),
      w := f(x - 1, y),
      ne := f(x + 1, y - 1),
      nw := f(x - 1, y - 1),
      se := f(x + 1, y + 1),
      sw := f(x - 1, y + 1))
  }

  /** Horizontal Sobel response: right column minus left column, middle row doubled.
      It vanishes when the left and right columns agree. */
  function GradientX(nb: Neighbours): (g: real)
    ensures nb.ne == nb.nw && nb.e == nb.w && nb.se == nb.sw ==> g == 0.0
  {
    (nb.ne + 2.0 * nb.e + nb.se) - (nb.nw + 2.0 * nb.w + nb.sw)
  }

  /** Vertical Sobel response: bottom row minus top row, middle column doubled.
      It vanishes when the top and bottom rows agree. */
  function GradientY(nb: Neighbours): (g: real)
    ensures nb.nw == nb.sw && nb.n == nb.s && nb.ne == nb.se ==> g == 0.0
  {
    (nb.sw + 2.0 * nb.s + nb.se) - (nb.nw + 2.0 * nb.n + nb.ne)
  }

  /** On the source's luminance both gradients are bounded by 4 * 255, the largest
      possible swing of the kernel over bytes. */
  lemma GradientBounds(img: Image, x: int, y: int)
    requires img.NonEmpty()
    ensures -1020.0 <= GradientX(Gather(Luma(img), x, y)) <= 1020.0
    ensures -1020.0 <= GradientY(Gather(Luma(img), x, y)) <= 1020.0
  {
  }

  // An independent statement of the same filter: the 3x3 Sobel kernels as weight
  // functions of the offset (i, j), i the column step and j the row step, applied
  // to the window without flipping it (a correlation; flipping would only negate
  // both antisymmetric kernels).

  /** The nine window offsets, row by row. */
  const Window: seq<(int, int)> :=
    [(-1, -1), (0, -1), (1, -1),
     (-1,  0), (0,  0), (1,  0),
     (-1,  1), (0,  1), (1,  1)]

  /** Horizontal kernel [[-1 0 1] [-2 0 2] [-1 0 1]]. */
  function KernelX(i: int, j: int): int {
    i * (2 - Abs(j))
  }

  /** Vertical kernel [[-1 -2 -1] [0 0 0] [1 2 1]]. */
  function KernelY(i: int, j: int): int {
    j * (2 - Abs(i))
  }

  /** The field at each window offset around (x, y), in window order. */
  function WindowSamples(f: Field, x: int, y: int): (vs: seq<real>)
    ensures |vs| == |Window|
  {
    seq(|Window|, k requires 0 <= k < |Window| => f(x + Window[k].0, y + Window[k].1))
  }

  /** Sum of kernel weight times sample over the window offsets from index k on. */
  function WeightedSum(kernel: (int, int) -> int, vs: seq<real>, k: nat): real
    requires |vs| == |Window| && k <= |Window|
    decreases |Window| - k
  {
    if k == |Window| then 0.0
    else kernel(Window[k].0, Window[k].1) as real * vs[k] + WeightedSum(kernel, vs, k + 1)
  }

  /** The 3x3 correlation of a field with a kernel at (x, y): each window sample
      weighted by the kernel at its own offset. */
  function Correlate(f: Field, x: int, y: int, kernel: (int, int) -> int): real {
    WeightedSum(kernel, WindowSamples(f, x, y), 0)
  }

  /** The window sum written out term by term. */
  lemma {:induction false} WeightedSumUnrolled(kernel: (int, int) -> int, vs: seq<real>)
    requires |vs| == |Window|
    ensures WeightedSum(kernel, vs, 0)
         == kernel(-1, -1) as real * vs[0] + kernel(0, -1) as real * vs[1] + kernel(1, -1) as real * vs[2]
          + kernel(-1, 0) as real * vs[3] + kernel(0, 0) as real * vs[4] + kernel(1, 0) as real * vs[5]
          + kernel(-1, 1) as real * vs[6] + kernel(0, 1) as real * vs[7] + kernel(1, 1) as real * vs[8]
  {
  }

  /** Reads a window, listed in window order, back as named compass neighbours. */
  function FromWindow(vs: seq<real>): Neighbours
    requires |vs| == |Window|
  {
    Neighbours(
      n := vs[1], s := vs[7], e := vs[5], w := vs[3],
      ne := vs[2], nw := vs[0], se := vs[8], sw := vs[6])
  }

  /** The eight compass neighbours are the 3x3 window around (x, y), read back by
      direction: north is offset (0, -1), east is (1, 0). */
  lemma GatherReadsWindow(f: Field, x: int, y: int)
    ensures Gather(f, x, y) == FromWindow(WindowSamples(f, x, y))
  {
  }

  /** On any window of values the explicit Sobel formulas equal the kernel sums. */
  lemma {:induction false} SobelFormulasMatchKernels(vs: seq<real>)
    requires |vs| == |Window|
    ensures GradientX(FromWindow(vs)) == WeightedSum(KernelX, vs, 0)
    ensures GradientY(FromWindow(vs)) == WeightedSum(KernelY, vs, 0)
  {
    WeightedSumUnrolled(KernelX, vs);
    WeightedSumUnrolled(KernelY, vs);
  }

  /** The gradients the pass computes are exactly the two 3x3 Sobel kernels
      applied to the field's window. */
  lemma {:induction false} GradientIsSobelCorrelation(f: Field, x: int, y: int)
    ensures GradientX(Gather(f, x, y)) == Correlate(f, x, y, KernelX)
    ensures GradientY(Gather(f, x, y)) == Correlate(f, x, y, KernelY)
  {
    var vs := WindowSamples(f, x, y);
    GatherReadsWindow(f, x, y);
    SobelFormulasMatchKernels(vs);
  }

  /** Flat field: when every pixel has the same luminance, both gradients vanish at
      every coordinate, border pixels included, because each clamped neighbour reads
      a pixel of that same luminance. */
  lemma FlatFieldZeroGradient(img: Image, c: real, x: int, y: int)
    requires img.NonEmpty() && UniformLuminance(img, c)
    ensures GradientX(Gather(Luma(img), x, y)) == 0.0
    ensures GradientY(Gather(Luma(img), x, y)) == 0.0
  {
    forall i, j | -1 <= i <= 1 && -1 <= j <= 1 {
      UniformSample(img, c, x + i, y + j);
    }
  }

  /** A one-column image has no horizontal gradient: left and right neighbours both
      clamp onto the single column. */
  lemma SingleColumnNoGradientX(img: Image, x: int, y: int)
    requires img.NonEmpty() && img.width == 1
    ensures GradientX(Gather(Luma(img), x, y)) == 0.0
  {
  }

  /** A one-row image has no vertical gradient: upper and lower neighbours both
      clamp onto the single row. */
  lemma SingleRowNoGradientY(img: Image, x: int, y: int)
    requires img.NonEmpty() && img.height == 1
    ensures GradientY(Gather(Luma(img), x, y)) == 0.0
  {
  }
}
