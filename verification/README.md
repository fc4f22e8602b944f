# ImgPy kernel filters, modelled in Dafny

ImgPy's `src/filters.py` offers six image filters, each built on its own
3x3 kernel: left, right and top Sobel, outline, sharpen and emboss. Each one
converts a colour image to grayscale. It then allocates a zero buffer of
shape `(H-3+1, W-3+1)`. At every output position `(ix, iy)` it takes the
3x3 patch `img[ix:ix+3, iy:iy+3]`, multiplies it elementwise by the
kernel, sums the nine products and stores `max(0, sum)`. Once the buffer
is full it is cast to `uint8`. The four edge detectors then invert the
image.

The six copies of that loop become one parameterised engine and a
declarative catalog:

- `grid.dfy` (`Grid`): rectangular buffers as `seq<seq<real>>`. It holds
  elementwise product, whole-buffer sum and scaling, and the fact that
  summing commutes with scaling.
- `results.dfy` (`Results`): a failure-compatible `Result` for the one
  error the correlation stage can raise (`np.zeros` refusing a negative
  dimension).
- `correlation.dfy` (`Correlation`): patch extraction, the raw response,
  `max(0, ·)`, the valid-mode `Correlate` and the imperative
  `CorrelateLoop` that mirrors each filter function's nested loop. It also holds
  the lemmas: the written-out nine-term formula, locality, constant images
  and negated kernels.
- `quantize.dfy` (`Quantization`): the truncating 8-bit cast and the tonal
  inversion.
- `filters.dfy` (`Filters`): the six kernels, the invert flag per filter,
  the end-to-end `Apply`, and the properties of the concrete catalog.

Pixels and kernel weights are `real`. The kernels are float literals, so
`im_patch * kernel` is a float array whatever the grayscale image's element
type; `real` pixels cover both integral and fractional grays, and the
truncation performed by the cast is visible in the model. Sums are exact
rather than IEEE doubles.

All six filters clamp with `max(0, ·)`, sharpen and emboss included
(src/filters.py:168, :198). An image 2 pixels high or wide gives an empty
result (`Filters.TwoByTwoGivesEmpty`); a height or width of 0 or 1 fails
because `np.zeros` refuses a negative dimension
(`Filters.ThinImageRejected`).

## Model

| member | source | states |
|---|---|---|
| Grid.Hadamard | src/filters.py:29 | the product of the patch and the kernel has the patch's shape, and each entry is the product of the entries at the same position |
| Correlation.Patch | src/filters.py:28 | the slice at `(ix, iy)` is 3x3 and entry `(i, j)` is input pixel `(ix+i, iy+j)`; its precondition is the in-bounds condition, which `Correlate` meets at every valid output coordinate |
| Correlation.Clamp | src/filters.py:31 | the stored value is non-negative, at least the raw sum, and is either the raw sum or zero, which is exactly `max(0, s)` |
| Correlation.Correlate | src/filters.py:24-31 | it fails exactly when the output shape `(H-2, W-2)` has a negative dimension; otherwise the output has H-2 rows of W-2 entries, and every entry is non-negative |
| Correlation.CorrelateLoop | src/filters.py:24-31 | zero-allocating the buffer and filling it in row-major order with the nested loop yields exactly the functional `Correlate` |
| Correlation.ResponseIsWindowSum | src/filters.py:28-31 | the raw response `Response` (the sum of the patch-times-kernel products, before the clamp) equals the written-out sum of the nine products `img[ix+i][iy+j] * k[i][j]` |
| Correlation.CorrelatePixel | src/filters.py:28-31 | output pixel `(ix, iy)` is `max(0, sum over i, j in 0..2 of img[ix+i][iy+j] * k[i][j])` |
| Correlation.CorrelateIsLocal | src/filters.py:26-31 | two same-shape images that agree on the 3x3 window at `(ix, iy)` give the same output pixel there, so a pixel depends on no other input |
| Correlation.ResponseOnConstant | src/filters.py:28-31 | on a constant window of value c, the raw response is c times the kernel's weight sum |
| Correlation.CorrelateConstant | src/filters.py:24-31 | on a constant image of value c, every output pixel is `max(0, c * w)`, where w is the kernel's weight sum |
| Correlation.ResponseNegate | src/filters.py:29-31 | negating every kernel weight negates the raw response |
| Correlation.CorrelateNegatedKernel | src/filters.py:29-31 | for a kernel and its negation, at each position one clamped output is zero, their difference is the raw response s, and their sum is `abs(s)` |
| Quantization.CastU8 | src/filters.py:32 | a value in [0, 256) becomes the integer b with `b <= v < b + 1` (truncation, not rounding); larger values saturate to 255 or wrap modulo 256, depending on the platform policy |
| Quantization.CastKeepsBytes | src/filters.py:32 | an integral value in 0..255 passes through the cast unchanged under either policy |
| Quantization.CastTruncates | src/filters.py:32 | 254.9 is cast to 254, not 255 |
| Quantization.Quantize | src/filters.py:32 | the cast of the full buffer keeps its shape and truncates every entry below 256 |
| Quantization.Invert | src/filters.py:33 | inversion keeps the shape, and each output pixel plus the input pixel is 255 |
| Quantization.InvertTwice | src/filters.py:33 | inverting twice gives back the image |
| Filters.KernelOf | src/filters.py:18-187 | each filter's kernel is 3x3; the weights are the table in the body, that function's literals row-major and unflipped |
| Filters.Inverts | src/filters.py:33-200 | true exactly for left Sobel, right Sobel, top Sobel and outline, the four functions that call `InvertGrayImg` (:33, :64, :95, :139); false for sharpen and emboss, which return the cast buffer (:169-170, :199-200) |
| Filters.Apply | src/filters.py:6-200 | a kernel filter fails exactly when the output shape would be negative; otherwise its output is `(H-2) x (W-2)` |
| Filters.RunFilter | src/filters.py:24-34 | the imperative pipeline (loop fill, then cast, then optional inversion) computes exactly `Apply` |
| Filters.ApplyPixel | src/filters.py:28-33 | end to end, pixel `(ix, iy)` is the cast of `max(0, nine-term sum)`, subtracted from 255 for the four edge detectors and left as is for sharpen and emboss |
| Filters.KernelWeights | src/filters.py:18-187 | the weights of the Sobel and outline kernels sum to 0, and those of sharpen and emboss sum to 1 |
| Filters.RightSobelIsNegatedLeft | src/filters.py:18-51 | the right Sobel kernel is the elementwise negation of the left one |
| Filters.SobelOpposites | src/filters.py:18-62 | before the cast, at each position at least one of the left and right Sobel outputs is 0, and their difference is the left raw response |
| Filters.SobelPairHasWhite | src/filters.py:31-64 | after the cast and inversion, at each position at least one of the left and right Sobel images is 255 |
| Filters.PreCastOnConstant | src/filters.py:18-198 | before the cast, a constant image gives all zeros under the four edge detectors and `max(0, c)` under sharpen and emboss |
| Filters.ApplyOnConstant | src/filters.py:18-200 | a constant image of value c in [0, 256) gives all 255 under the edge detectors and `floor(c)` under sharpen and emboss |
| Filters.SharpenFlatFive | src/filters.py:155-170 | a 5x5 image of value 10 under sharpen gives a 3x3 image of value 10 |
| Filters.OutlineOnBlackPixel | src/filters.py:124-140 | a 3x3 black image under outline gives the single pre-cast value 0, which is 255 after inversion |
| Filters.TwoByTwoGivesEmpty | src/filters.py:24-27 | a 2x2 image is not rejected; the result is an empty image |
| Filters.ThinImageRejected | src/filters.py:24 | an image one pixel high or wide is rejected with the negative output shape |

## Left out

- `gray_scale` and the colour-to-grayscale conversion `utils.rgb2gray` (src/filters.py:22, 109): `utils/utils.py` is not part of this model. It is assumed to return a single-channel image of the same height and width; nothing else about it is assumed. Every filter takes that single-channel image as its input.
- Quantization.Invert: `utils.InvertGrayImg` is not part of this model. It is modelled as `255 - v` on 8-bit pixels, which is an assumption and is not checked against its source.
- Quantization.CastU8: numpy's float-to-`uint8` conversion of values of 256 and above is platform-dependent. The model offers the two common behaviours (`Wrap`, `Saturate`) as a parameter rather than choosing one. Such values do occur, for example outline on a bright pixel in a dark neighbourhood.
- Filters.KernelOf: its contract states only the 3x3 shape; the weights themselves are the table in its body, which `KernelWeights` and `RightSobelIsNegatedLeft` constrain but do not pin down entry by entry.
- Quantization.Quantize: its contract states truncation only for entries below 256. Larger entries are described by `CastU8`'s contract.
- Floating-point rounding in the products and sums: the model uses exact real arithmetic.
- Non-rectangular input: a numpy 2-D array is always rectangular, so rectangularity is a precondition.
- The `matplotlib` import (src/filters.py:2) is unused by the filters.
