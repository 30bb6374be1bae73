# romanesgo rendering engine in Dafny

This project models the rendering engine of romanesgo (`Generator.go`). The
engine renders a fractal image. It maps every pixel, plus a grid of sub-pixel
offsets, onto a plane. It evaluates a point function at each of those plane
points, averages the `samples*samples` colours of each pixel, and writes the
mean into a framebuffer. Several goroutine workers share the work. Worker
`rno` handles the linear pixel indices `rno, rno+routines, …` below
`width*height`.

The model has five modules:

- `Colour` (`colour.dfy`): the RGBA value, channel sums and means, and the
  facts the averaging relies on.
- `Mapper` (`mapper.dfy`): the `fractGen` record, `getNewFractGen` and
  `pixToCoord`, with its inverse `CoordToPix`.
- `Offsets` (`offsets.dfy`): the sub-pixel offset formula and the table each
  worker builds.
- `Partition` (`partition.dfy`): the strided index walk and the decoding of an
  index into a pixel.
- `Sampler` (`sampler.dfy`): the per-pixel reduction (`SamplePixel`, whose
  inner loop over one row of sub-samples is `SampleRow`), one
  worker (`GenRoutine`, which writes into a Dafny array), and `generate`.
  `generate` is modelled twice. `Generate` runs the workers in spawn order.
  `GenerateInOrder` runs them in any order.

The reference image is `Sampler.Image`. At each index it holds the mean
colour of the pixel that the index decodes to. It does not mention the worker
count or the schedule. `Generate` and `GenerateInOrder` are proved to produce
exactly this image whenever at least one worker exists and every worker runs.
`Sampler.GenRoutine` proves two things about one worker. First, the indices
its loop visits are exactly the walk `Partition.Stride(rno, routines, size)`;
by `Partition.DisjointCover`, these walks split the frame among the workers
with no index visited twice. Second, the worker writes the final image value
at every index congruent to `rno` modulo `routines` and leaves every other
index alone. The framebuffer result of `GenerateInOrder` follows from the
second fact.

Go's `float64` is modelled as Dafny's exact `real`. The point function is a
parameter of type `(real, real, int) -> Rgba`. Its four float results are
gathered into one `Rgba`.

`genRoutine` samples a pixel at its integer position plus the offset, and
`pixToCoord` adds no half-pixel shift. With one sample, pixel (2, 2) of a 4x4
frame at zoom 1 centred on the origin is sampled at (0, 0)
(`Sampler.FourByFourFrame`).

## Model

| member | source | states |
|---|---|---|
| `Mapper.FractGen` | Generator.go:10-20 | The `fractGen` struct: the framebuffer, the centre, zoom and scale, the frame size, the worker count and the iteration cap. It is a record with no contract of its own. |
| `Mapper.NewFractGen` | Generator.go:22-43 | All parameters are stored unchanged. The framebuffer is width*height zero pixels. The scale is at most both width and height and equals one of them, so it is min(width, height). When the sides are equal, it is the height. |
| `Sampler.NewFractGenRenderable` | Generator.go:22-48 | A freshly built generator is renderable, which is what `Generate` needs of it once there is a worker, exactly when the zoom is nonzero or the frame has no pixel. The scale of a non-empty frame is at least one, so only a zero zoom can make the mapper divide by zero. It is renderable with a non-negative worker count exactly when routines >= 0 as well. |
| `Mapper.PixToCoord` | Generator.go:45-48 | No contract of its own. The body is the formula of lines 46-47 over reals. The lemmas in the rows below state its properties: the centre, the slope, affinity, zoom scaling, the inverse and the fields it reads. |
| `Mapper.CentreMapsToPos` | Generator.go:45-48 | The frame centre (width/2, height/2) maps exactly to (xPos, yPos) for every nonzero zoom. |
| `Mapper.SlopeIsPixelSpan` | Generator.go:46-47 | The mapper's slope `(2/scaler)/zoom` equals the pixel span `2/(scaler*zoom)`. |
| `Mapper.PixToCoordAffine` | Generator.go:46-47 | The mapper is affine on both axes. Pixels (dx, dy) apart map to plane points (dx*span, dy*span) apart. |
| `Mapper.DoubleZoomHalvesDistance` | Generator.go:46-47 | Doubling the zoom halves the plane distance between the images of any two pixel positions, on each axis. |
| `Mapper.CoordToPixInvertsPixToCoord` | Generator.go:45-48 | Mapping a pixel position to the plane and back gives the same position. |
| `Mapper.PixToCoordInvertsCoordToPix` | Generator.go:45-48 | Mapping a plane point to pixel space and back gives the same point. Together with the row above, the mapper is a bijection. |
| `Mapper.PixToCoordReadsView` | Generator.go:45-48 | The mapper reads only width, height, scaler, zoom and the centre. Generators that agree on these fields map every pixel alike. |
| `Offsets.Offset` | Generator.go:67 | Every offset `(1+2k-n)/(2n)` with 0 <= k < n lies in [-1/2, 1/2). |
| `Offsets.OffsetTable` | Generator.go:64-68 | The table has `samples` entries, and entry k is offset k of `samples`. |
| `Offsets.OffsetIsCellMidpoint` | Generator.go:67 | Offset k is the midpoint of the k-th of n equal cells that tile [-1/2, 1/2), strictly inside that cell. |
| `Offsets.OffsetSymmetric` | Generator.go:67 | offset(k) = -offset(n-1-k), so the table is symmetric about the pixel position. |
| `Offsets.OffsetSpacing` | Generator.go:67 | Consecutive offsets differ by exactly 1/n. |
| `Offsets.SingleOffsetIsZero` | Generator.go:67 | For one sample per axis, the single offset is 0. |
| `Offsets.OffsetSumClosedForm` | Generator.go:66-67 | The first m offsets of n add up to (m*m - m*n)/(2n). |
| `Offsets.OffsetsCentred` | Generator.go:66-67 | All n offsets add up to 0, so the sample grid is centred on the pixel position. |
| `Partition.Stride` | Generator.go:73 | A worker's walk visits only indices in [start, size), in strictly increasing order, so it visits no index twice. |
| `Partition.StrideMembership` | Generator.go:73 | An index is visited exactly when it lies in [start, size) and has the same remainder as `start` modulo `routines`. |
| `Partition.WorkerOwns` | Generator.go:55-73 | Worker rno < routines visits index i exactly when 0 <= i < size and i % routines == rno. |
| `Partition.DisjointCover` | Generator.go:55-73 | Every index in [0, size) is visited by worker i % routines. Every index any worker visits lies in [0, size), and that worker is i % routines. |
| `Partition.StrideLength` | Generator.go:73 | The walk from `start` makes ceil((size-start)/routines) visits, or none when start >= size. |
| `Partition.Balanced` | Generator.go:55-73 | The pixel counts of any two workers differ by at most one, and a lower-numbered worker never gets fewer pixels. |
| `Partition.Decode` | Generator.go:74-75 | A non-negative index decodes to a column in [0, width) and a non-negative row. |
| `Partition.DecodeInFrame` | Generator.go:72-75 | Every index below width*height decodes to a pixel inside the frame, and re-encoding that pixel as y*width + x gives the index back. |
| `Partition.EncodeInFrame` | Generator.go:74-91 | Every in-frame pixel encodes to an index below width*height and decodes back to itself. So decoding is a bijection onto the pixel grid. |
| `Colour.RunningMeanStep` | Generator.go:85-88 | Adding c/d to a running sum of terms each divided by d gives the divided sum of one more term. So the running mean equals sum-then-divide. |
| `Colour.MeanOfConstant` | Generator.go:77-90 | The mean of identical samples is that sample. |
| `Colour.MeanInRange` | Generator.go:77-91 | If every sample has its channels in [lo, hi], the mean does too. |
| `Sampler.SampleAt` | Generator.go:81-83 | No contract of its own. One sub-sample is `pointFunc` applied to `pixToCoord` of the pixel position plus the x and y offsets, with the iteration cap. `Sampler.TableSample` relates it to the loops' table lookups. |
| `Sampler.TableSample` | Generator.go:79-83 | The colour the nested loops compute for sub-sample (xs, ys) from the offset table is sample xs*n + ys of the pixel. |
| `Sampler.AccumulateStep` | Generator.go:80-88 | One inner-loop step adds the sampled colour divided by samples² to the running sum. If the sum held the divided sum of the first j samples, it now holds the divided sum of the first j+1. |
| `Sampler.SampleRow` | Generator.go:80-89 | After the inner loop for one x sub-sample, the running sum holds the divided sum of one more row of `samples` samples. |
| `Sampler.SamplePixel` | Generator.go:77-90 | The accumulated (R, G, B, A) after the samples*samples inner iterations is the mean of the pixel's samples. With zero samples it is (0, 0, 0, 0). |
| `Sampler.ImageEntry` | Generator.go:72-91 | Index i of the frame lies in a non-empty frame. Its decoded pixel re-encodes to i. The image holds that pixel's colour there. |
| `Sampler.GenRoutine` | Generator.go:62-96 | The indices the worker's loop visits, in order, are exactly `Stride(rno, routines, size)`. After the worker runs, each index congruent to rno holds its final image value, and every other index is unchanged. |
| `Sampler.GenerateInOrder` | Generator.go:51-60 | Running workers in any order writes the final image value to each pixel whose owner ran and leaves the others unchanged. When every worker runs, the framebuffer is the image. Only the framebuffer changes. |
| `Sampler.Generate` | Generator.go:51-60 | With routines >= 1 the framebuffer becomes the image. With routines == 0 no worker starts and the framebuffer is left as it was. That case accepts any generator, even one with zoom 0, and any `samples`, even a negative one, since neither the mapper nor `samples` is used. No other field changes. |
| `Sampler.ImageAt` | Generator.go:74-91 | Pixel (x, y) of the image, at row-major index y*width + x, is that pixel's mean colour. |
| `Sampler.ImageReadsView` | Generator.go:72-91 | The image depends only on width, height, scaler, zoom, centre and iteration cap. Two generators that agree on these have the same image. |
| `Sampler.ImageIgnoresRoutines` | Generator.go:51-91 | The image is the same for every worker count. |
| `Sampler.ImageIgnoresFramebuffer` | Generator.go:77-91 | The image does not depend on the framebuffer's earlier contents, so calling `generate` again overwrites every pixel with the same image. |
| `Sampler.ConstantPointFunc` | Generator.go:77-90 | If the point function always returns c, every pixel is c for any samples >= 1. |
| `Sampler.ZeroSamplesGiveBlack` | Generator.go:64-91 | With samples = 0 no sample is taken, and the pixel is (0, 0, 0, 0). |
| `Sampler.SingleSampleIsPixelPosition` | Generator.go:64-83 | With one sample per axis, a pixel is the point function at the pixel position itself, with no anti-aliasing. |
| `Sampler.ImageInRange` | Generator.go:77-91 | If every point-function value has its channels in [lo, hi], so does every pixel. For [0, 255], this means the byte conversion never overflows. |
| `Sampler.FourByFourFrame` | Generator.go:35-83 | Take a 4x4 frame centred on the origin at zoom 1 with one sample. Pixel (2, 2) is sampled at (0, 0) and pixel (3, 3) at (0.5, 0.5). |

## Left out

- `pointFunc` is assumed pure, deterministic and non-panicking, since it is a Dafny function value. A stateful or panicking closure is not modelled. The independence from worker count and order rests on this.
- Goroutines, `sync.WaitGroup` and happens-before (Generator.go:52-59, 95). Workers run one after another. `GenerateInOrder` proves the result does not depend on their order.
- IEEE-754 rounding in `pixToCoord` and in the running mean. `real` is exact. Over floats, the sum of n*n copies of c/(n*n) need not equal c.
- The `uint8(R)` conversion (Generator.go:91) and its implementation-defined result outside [0, 256). Pixels keep the real channel means. `Sampler.ImageInRange` shows that point functions in [0, 255] keep every pixel in range.
- The internals of `image.NRGBA` and the colour-model conversion in `Set`. The framebuffer is a sequence of pixels in row-major order.
- The `fmt.Println` progress line (Generator.go:93).
- Division by zero in `pixToCoord` when a worker runs on a frame that has pixels but whose `scaler` or `zoom` is zero. Go's float64 gives Inf or NaN there, which `real` cannot represent. `Mappable` requires both to be nonzero whenever there is a pixel, and `Generate` requires this only when there is a worker. With no worker, `pixToCoord` is never called.
- Negative width or height. `image.Rect` swaps the corners, and the product `width*height` then has its own behaviour. The model requires non-negative dimensions.
- Negative `routines`, and negative `samples` when there is a worker. The source panics in `wg.Add` on a negative `routines`, and in `make` (Generator.go:64) on a negative `samples` once a worker runs. These are preconditions rather than modelled errors. With `routines == 0` the source never reaches `make`, and `Generate` accepts any `samples` there.
- Integer overflow of `width*height` and `samples*samples`. These stay far below the int range for real frames.
- gui.go entirely: the GUI wiring, the repaint ticker, `ParseConstants`, `getFractalFunctionTolerant` and `handleError`. The concrete fractal and colouring functions, and the fractal registry, are not part of this model. The point function is a parameter.
