/**
 * The integer padding arithmetic of the StyleGAN2 blur and upsample layers
 * (`Upsample.__init__`, `ModulatedConv2d.__init__`). Python's `//` with the
 * positive divisor 2 is floor division, which is what Dafny's `/` computes
 * for a positive divisor, also when the dividend is negative.
 */
module StyleGanPadding {
  import opened Wrappers

  /** The (before, after) padding handed to `upfirdn2d`. */
  datatype Pad = Pad(pad0: int, pad1: int)

  /** `a // 2`, rounding towards minus infinity. */
  function Half(a: int): (q: int)
    ensures 2 * q <= a < 2 * q + 2
  {
    a / 2
  }

  /** The two halves of `p` (rounded up, rounded down) add back to `p`. */
  lemma HalvesAddUp(p: int)
    ensures Half(p + 1) + Half(p) == p
  {
  }

  /**
   * `Upsample(kernel, factor)`: with `p = K - factor` the padding is
   * `((p + 1) // 2 + factor - 1, p // 2)`. The two sides add up to `K - 1`,
   * which is what makes `upfirdn2d` return exactly `factor` times the input.
   */
  function UpsamplePad(kernelLen: int, factor: int): (r: Pad)
    ensures r.pad0 + r.pad1 == kernelLen - 1
    ensures r.pad0 - r.pad1 == factor - 1 + (if (kernelLen - factor) % 2 == 0 then 0 else 1)
  {
    var p := kernelLen - factor;
    HalvesAddUp(p);
    Pad(Half(p + 1) + factor - 1, Half(p))
  }

  /** The default blur kernel `[1, 3, 3, 1]` upsampled by 2 is padded `(2, 1)`. */
  lemma DefaultUpsamplePad()
    ensures UpsamplePad(4, 2) == Pad(2, 1)
  {
  }

  /**
   * The blur padding of `ModulatedConv2d` after a stride-2 transposed
   * convolution: `p = (K - 2) - (ks - 1)`, padding `((p + 1) // 2 + 1, p // 2 + 1)`.
   */
  function UpsampleBlurPad(kernelLen: int, kernelSize: int): (r: Pad)
    ensures r.pad0 + r.pad1 == kernelLen - kernelSize + 1
  {
    var factor := 2;
    var p := (kernelLen - factor) - (kernelSize - 1);
    HalvesAddUp(p);
    Pad(Half(p + 1) + factor - 1, Half(p) + 1)
  }

  /**
   * For the default blur kernel and a 3 x 3 convolution the upsampling blur
   * is padded one on each side.
   */
  lemma DefaultUpsampleBlurPad()
    ensures UpsampleBlurPad(4, 3) == Pad(1, 1)
  {
  }

  /**
   * The blur padding of `ModulatedConv2d` before a stride-2 convolution:
   * `p = (K - 2) + (ks - 1)`, padding `((p + 1) // 2, p // 2)`.
   */
  function DownsampleBlurPad(kernelLen: int, kernelSize: int): (r: Pad)
    ensures r.pad0 + r.pad1 == kernelLen + kernelSize - 3
    ensures r.pad0 == r.pad1 || r.pad0 == r.pad1 + 1
  {
    var factor := 2;
    var p := (kernelLen - factor) + (kernelSize - 1);
    HalvesAddUp(p);
    Pad(Half(p + 1), Half(p))
  }

  /**
   * The blur `ModulatedConv2d.__init__` builds: none for a plain
   * convolution; with both flags set the downsample blur, assigned second,
   * is the one that stays.
   */
  function ModulatedConvBlur(kernelLen: int, kernelSize: int, upsample: bool, downsample: bool): (r: Option<Pad>)
    ensures r.None? <==> !upsample && !downsample
    ensures downsample ==> r == Some(DownsampleBlurPad(kernelLen, kernelSize))
    ensures upsample && !downsample ==> r == Some(UpsampleBlurPad(kernelLen, kernelSize))
  {
    if downsample then Some(DownsampleBlurPad(kernelLen, kernelSize))
    else if upsample then Some(UpsampleBlurPad(kernelLen, kernelSize))
    else None
  }

  /** `self.padding = kernel_size // 2`: for an odd kernel the convolution keeps the size. */
  function ConvPadding(kernelSize: int): (pad: int)
    ensures kernelSize % 2 == 1 ==> 2 * pad + 1 == kernelSize
    ensures kernelSize % 2 == 0 ==> 2 * pad == kernelSize
  {
    Half(kernelSize)
  }

  // The output-size rules below are those of the tensor framework's
  // operations (not of this repository); they show what the paddings are for.

  /** Output width of `upfirdn2d` with upsampling `up`, no downsampling. */
  function UpFirDnWidth(width: int, up: int, kernelLen: int, pad: Pad): int
  {
    width * up + pad.pad0 + pad.pad1 - kernelLen + 1
  }

  /** Output width of a stride-2 transposed convolution without padding. */
  function TransposedConvWidth(width: int, kernelSize: int): int
  {
    (width - 1) * 2 + kernelSize
  }

  /** Output width of a convolution with the given stride and padding. */
  function ConvWidth(width: int, kernelSize: int, stride: int, padding: int): int
    requires stride > 0
  {
    (width + 2 * padding - kernelSize) / stride + 1
  }

  /**
   * With these paddings both upsampling paths double the width exactly:
   * `Upsample` (factor 2) and the transposed convolution followed by the
   * blur of `ModulatedConv2d`.
   */
  lemma UpsamplingDoubles(width: int, kernelLen: int, kernelSize: int)
    ensures UpFirDnWidth(width, 2, kernelLen, UpsamplePad(kernelLen, 2)) == 2 * width
    ensures UpFirDnWidth(TransposedConvWidth(width, kernelSize), 1, kernelLen, UpsampleBlurPad(kernelLen, kernelSize)) == 2 * width
  {
  }

  /**
   * The downsampling path (blur, then a stride-2 convolution) halves an even
   * width, and the plain convolution keeps the width for an odd kernel.
   */
  lemma ConvPathsKeepScale(width: int, kernelLen: int, kernelSize: int)
    ensures width % 2 == 0 ==>
      ConvWidth(UpFirDnWidth(width, 1, kernelLen, DownsampleBlurPad(kernelLen, kernelSize)), kernelSize, 2, 0) == width / 2
    ensures kernelSize % 2 == 1 ==> ConvWidth(width, kernelSize, 1, ConvPadding(kernelSize)) == width
  {
  }

  /**
   * The output width of `ModulatedConv2d.forward`: the upsampling path
   * (stride-2 transposed convolution, then the blur) when `upsample` is
   * set, else the downsampling path (the blur, then a stride-2
   * convolution), else a convolution padded by `kernel_size // 2`. The
   * blur is the one `__init__` kept.
   */
  function ModulatedConvWidth(width: int, kernelLen: int, kernelSize: int, upsample: bool, downsample: bool): int
  {
    var blur := ModulatedConvBlur(kernelLen, kernelSize, upsample, downsample);
    if upsample then UpFirDnWidth(TransposedConvWidth(width, kernelSize), 1, kernelLen, blur.value)
    else if downsample then ConvWidth(UpFirDnWidth(width, 1, kernelLen, blur.value), kernelSize, 2, 0)
    else ConvWidth(width, kernelSize, 1, ConvPadding(kernelSize))
  }

  /**
   * What the selected blur is for: with only `upsample` set the layer
   * doubles the width, with only `downsample` set it halves an even width,
   * and with neither it keeps the width for an odd kernel. With both set,
   * `forward` takes the upsampling path but `__init__` kept the
   * downsampling blur, and the width comes out `2 * ks - 4` above double.
   */
  lemma ModulatedConvScale(width: int, kernelLen: int, kernelSize: int, upsample: bool, downsample: bool)
    ensures upsample && !downsample ==> ModulatedConvWidth(width, kernelLen, kernelSize, upsample, downsample) == 2 * width
    ensures !upsample && downsample && width % 2 == 0 ==>
      ModulatedConvWidth(width, kernelLen, kernelSize, upsample, downsample) == width / 2
    ensures !upsample && !downsample && kernelSize % 2 == 1 ==>
      ModulatedConvWidth(width, kernelLen, kernelSize, upsample, downsample) == width
    ensures upsample && downsample ==>
      ModulatedConvWidth(width, kernelLen, kernelSize, upsample, downsample) == 2 * width + 2 * kernelSize - 4
  {
    UpsamplingDoubles(width, kernelLen, kernelSize);
    ConvPathsKeepScale(width, kernelLen, kernelSize);
  }
}
