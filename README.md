# warp-image-filters in Dafny

A model of the two image filters in `main.py` of warp-image-filters, with proofs about it.
The program sharpens an image with an unsharp mask, or removes noise with a median filter. It applies
either filter to every channel of an image. Three Warp kernels do the per-pixel work:

- `blur` writes the mean of the reflected `(2r+1) x (2r+1)` window around each pixel.
- `unsharp` combines the original and the blurred plane as `in + k * (in - blur)`.
- `median_filter` gathers the window into a buffer of `kernSize^2` slots. It sorts the buffer in
  place with an exchange sort and writes the middle slot.

`unsharpMask` and `medianFilter` run these kernels on every channel plane. They collect the results
into an array of the input's shape.

The model has one module per concern:

- `Reflection`: the boundary reflection of a neighbour coordinate.
- `Planes`: a channel plane as a value (`seq<seq<real>>`), `PlaneOf` for the value an `array2`
  holds, and the reflected window around a pixel in row-major order. It also has the inline
  reflect-and-read code the kernels share, as `ReadReflected`.
- `BoxBlur`: the reference mean `BlurAt`, and the blur kernel as methods over arrays.
- `Unsharp`: the per-sample composition `UnsharpAt`, the sharpened plane, and the unsharp kernel.
- `Sorting`: a reference sort `SortSeq` on values, and the kernel's in-place exchange sort on an
  `array`, proved equal to it.
- `Median`: the reference median `MedianAt`, and the gather / sort / pick kernel.
- `Dispatch`: the kernel size check and the two per-channel drivers over `array3` images.

Samples are exact `real`s. An image is a `height x width x channels` array, and a grey ("L")
image is the one-channel case. Each Warp launch over the `(height, width)` grid becomes two nested
sequential loops. This is sound because every thread writes only its own output cell. Each kernel
method is proved against the reference function for its output. The properties of the filters
are proved about those functions.

The reflection in `main.py` maps `c < 0` to `-c - 1` and `c >= n` to `2n - c - 1`. This
repeats the edge sample: it is symmetric reflection, not the reflect-101 variant that skips
the edge. The model follows the code.

## Model

| member | source | states |
|---|---|---|
| Reflection.Reflect | main.py:38-48 | A coordinate already in `[0, n)` maps to itself. Any coordinate in `[-n, 2n)` lands in `[0, n)`. |
| Reflection.ReflectMirrorsEdge | main.py:39-48 | The edge sample is repeated: `-1-d` maps to `d`, and `n+d` maps to `n-1-d`. So `-1` and `0` both read slot 0, and `n` and `n-1` both read slot `n-1`. |
| Reflection.RadiusBeyondExtentEscapes | main.py:33-50 | When the radius exceeds the extent, the first offset reflects outside the plane. The unchecked bound `radius <= min(h, w)` is therefore needed for in-range reads. |
| Planes.ReadReflected | main.py:35-50 | The kernels' inline if/elif reflection, followed by the read, yields the sample at `Reflect(y), Reflect(x)`. |
| Planes.WindowRowMajor | main.py:86-104 | Slot `a * (2r+1) + b` of the window holds the reflected sample at offset `(a - r, b - r)`, so the window is gathered in row-major order. |
| Planes.WindowWithin | main.py:33-50 | Every window sample lies within the bounds of the plane's samples. Reflection brings in nothing from outside. |
| BoxBlur.AccumulateRow | main.py:34-51 | The inner loop adds exactly row `y` of the window to `sum`, and `2r+1` to `ctr`. |
| BoxBlur.AccumulateWindow | main.py:30-52 | On exit, `sum` is the sum of the whole window, and `ctr` is its population `(2r+1)^2`. Reflection supplies every slot, so no sample is dropped at an edge. |
| BoxBlur.WindowMean | main.py:30-53 | `sum / ctr` equals `BlurAt`, the mean of the reflected window. |
| BoxBlur.BlurWithin | main.py:30-53 | A blurred sample lies between the least and greatest sample of the plane. |
| BoxBlur.BlurKeepsConstant | main.py:30-53 | A plane whose samples all equal `v` blurs to `v` at every pixel. |
| BoxBlur.BlurOfUniformWindow | main.py:30-53 | A pixel whose whole window equals `v` blurs to `v`. |
| BoxBlur.BlurThread | main.py:25-53 | A thread outside the plane writes nothing. Any other thread writes `BlurAt` into its own cell and changes no other cell. |
| BoxBlur.LaunchBlur | main.py:144-150 | After the launch, every cell of the output holds the blur of the input at that pixel. |
| Unsharp.UnsharpAt | main.py:69-71 | The residual against the blur is scaled by `1 + k`. With `k = 0`, or where the blur equals the original, the output is the original. |
| Unsharp.SharpeningWidensResidual | main.py:69-71 | For `k >= 0`, the output is at least as far from the blurred value as the original was. For `k > 0`, at a pixel the blur moved, it is strictly further. |
| Unsharp.UnsharpZeroIsIdentity | main.py:147-157 | Sharpening with `k = 0` reproduces the plane exactly. |
| Unsharp.UnsharpKeepsConstant | main.py:147-157 | A constant plane stays constant under sharpening, whatever `k` is. |
| Unsharp.UnsharpKeepsUniformWindow | main.py:147-157 | A pixel whose window is uniform keeps its value, whatever `k` is. |
| Unsharp.UnsharpThread | main.py:64-71 | A thread outside the plane writes nothing. Any other thread writes `in + k * (in - blur)` into its own cell only. |
| Unsharp.LaunchUnsharp | main.py:152-157 | After the launch, every cell holds the composition of the input and blurred samples at that pixel. |
| Sorting.SortSeq | main.py:106-111 | The reference sort returns a sorted permutation of its input. |
| Sorting.SortedUnique | main.py:106-111 | Two sorted sequences with the same multiset are equal. So any in-place sort must produce `SortSeq` of its input. |
| Sorting.CompareExchange | main.py:107-111 | Slots `a` and `b` are exchanged exactly when slot `b` is smaller; otherwise they keep their values. Every other slot is unchanged. Afterwards slot `a` is at or below slots `a+1..b`, the sorted prefix is kept, and the buffer is a permutation of the old one. |
| Sorting.ExchangePass | main.py:107-111 | After outer iteration `a`, slot `a` is at or below every later slot, and slots `0..a` are in order. Slots `0..a-1` are untouched, and the buffer is a permutation of the original. |
| Sorting.ExchangeSort | main.py:106-111 | The buffer ends sorted, as a permutation of its original contents, and equal to `SortSeq` of them. |
| Sorting.MiddleOfSortedIsMajority | main.py:113 | In a sorted sequence where more than half the elements equal `v`, the middle slot holds `v`. |
| Median.GatherRow | main.py:87-104 | One row of the gather writes window row `y` into the `2r+1` slots after those already filled. It leaves the slots before and after them alone, and `ctr` advances to the next free slot. |
| Median.GatherWindow | main.py:83-104 | The buffer of `kernSize^2` slots ends holding exactly the reflected window, in row-major order. Every slot is written. |
| Median.WindowMedian | main.py:83-113 | Gather, sort, then read slot `neigh_size // 2`: the result equals `MedianAt`, the middle of the sorted window. |
| Median.MedianThread | main.py:82-113 | The thread writes `MedianAt` into its own cell and changes no other cell. |
| Median.LaunchMedianRow | main.py:194-197 | The threads of one grid row fill that row with the median-filtered plane. Other rows are untouched. |
| Median.LaunchMedian | main.py:194-197 | After the launch, the output equals the median-filtered plane at every cell. |
| Median.MedianOfMajority | main.py:113 | A window where more than half the samples equal `v` has median `v`. |
| Median.MedianWithin | main.py:113 | The median is one of the window's samples, and it stays within the plane's bounds. |
| Median.MedianKeepsConstant | main.py:113 | Median filtering a constant plane reproduces it. |
| Median.MedianRemovesSalt | main.py:113 | Take an interior pixel whose neighbours within its window all equal `v`. For any radius of at least 1, its median is `v` whatever its own value. Pixels outside the window are unconstrained. |
| Median.SaltExample | main.py:113 | In a uniform 5x5 plane of 10 with a centre of 250, the 3x3 median at the centre is 10. |
| Dispatch.ValidKernelSize | main.py:225 | The command line's check accepts exactly the odd kernel sizes of at least 1. For those, `2 * (kernSize // 2) + 1 = kernSize`. |
| Dispatch.ChannelOf | main.py:137-140 | The channel plane holds sample `[y, x, c]` of the image at `[y][x]`. |
| Dispatch.CopyChannel | main.py:137-143 | The fresh array holds exactly channel `ch` of the image. |
| Dispatch.StoreChannel | main.py:160-163 | Writing into channel `ch` of the result sets that slice and leaves the other channels unchanged. |
| Dispatch.SharpenChannel | main.py:136-163 | One iteration of the sharpening loop yields the sharpened plane of channel `ch`. |
| Dispatch.DenoiseChannel | main.py:181-202 | One iteration of the noise-removal loop yields the median-filtered plane of channel `ch`. |
| Dispatch.UnsharpMask | main.py:126-165 | The result has the input's shape. Channel `c` of the result is the sharpened plane of channel `c` of the input, and of nothing else. |
| Dispatch.MedianFilter | main.py:167-204 | The result has the input's shape. Channel `c` of the result is the median-filtered plane of channel `c` of the input, with `N = neigh_size = kernSize^2`. |

## Left out

- The Warp runtime is not modelled: `wp.init`, the device choice, and the `wp.array` / `wp.zeros` / `.numpy()` conversions. Each parallel launch is a sequential loop over `(i, j)`, which is sound because every thread writes only its own cell.
- float32 arithmetic is not modelled. Samples are exact reals, so `sum / ctr` and `in + k * (in - blur)` carry no rounding.
- PIL decoding and encoding are left out. So is the `np.uint8` cast of the result, whose behaviour on out-of-range floats is the library's.
- `find_image` is left out because it is a filesystem search.
- `main`'s argument parsing, printing and exit paths are left out. The kernel size check at main.py:225 is kept as `ValidKernelSize`, a precondition of the two drivers.
- `main`'s paths that leave `out_image` unbound are left out. They are command line error handling, not filter behaviour.
- The `image.mode == "L"` test (main.py:128-134, main.py:171-175) is abstracted away: every image is an `array3`. So a 2-D image in another mode ("1", "P", "I", "F") has no counterpart. In the source, unpacking its shape into three values raises a `ValueError`, which `main` does not catch, so the program aborts. That error path is not modelled.
- A grey image is a one-channel `array3` rather than a 2-D array. The `channels == 1` branches then store into the only channel.
- Dispatch.UnsharpMask: requires `radius <= min(h, w)` (`RadiusFits`). The source never checks this bound. Without it, the single reflection reads outside the plane (`RadiusBeyondExtentEscapes`).
- Dispatch.MedianFilter: requires `radius <= min(h, w)`, for the same reason.
- Median.MedianThread: requires `(i, j)` to be inside the plane. `median_filter` has no bounds guard, and its launch grid is exactly `(h, w)`.
- The kernel bodies are split into helper methods (`AccumulateRow`, `AccumulateWindow`, `GatherRow`, `CompareExchange`, `LaunchMedianRow`, `SharpenChannel`, `DenoiseChannel`). Each is one loop or one step of the source, so each can be proved on its own.
