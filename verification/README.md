# Canny edge core of CVProject, modelled in Dafny

CVProject turns a photo into a binary edge map with the Canny pipeline:
Gaussian smoothing, finite-difference gradient, gradient magnitude, two-way
non-maximum suppression and hysteresis thresholding by axis-aligned ray walks.
This project models the integer stages of that pipeline. These stages run from
the two smoothed buffers to the final edge mask in `ViewController.swift`.

- `pixel_buffer.dfy` (module `PixelBuffers`): `PixelBuffer`, a row-major grid of
  bytes with `width`, `height` and `data`. `Get`/`Set` address pixel `(x, y)` at
  `y * width + x`, written as a sum of row lengths (`RowStart`). `Tabulate` builds a fresh buffer from a per-pixel function,
  and every stage uses it to make its output.
- `arith.dfy` (module `Arith`): absolute value, min/max, and an exact integer
  square root `ISqrt` with its characterising lemmas.
- `gradient.dfy` (module `Gradients`): `Gradient` computes central differences.
  `dx` comes from the horizontally smoothed buffer and `dy` from the vertically
  smoothed one. `GradientMagnitude` computes `min(255, ISqrt(dx^2 + dy^2))`.
  Both stages compute interior pixels only; every other pixel passes through.
- `suppression.dfy` (module `Suppression`): `IsMax` and `Suppress`. Each pixel is
  compared with its neighbours along y when `dy > dx` (the pixel is
  "vertical"), and along x otherwise.
- `hysteresis.dfy` (module `Hysteresis`): `HysteresisThresholding`. Each seed
  walks four rays (up, down, left, right), written as loops with early exit.
  `Reached` is the reference definition of the pixels those walks turn on.
- `canny.dfy` (module `Canny`): `EdgeMask` chains the four stages with the
  thresholds 10 and 4 used by `performCannyEdgeDetection`. It also holds
  lemmas about a sharp 0/255 step fed unsmoothed into the gradient stage.
  There the central difference gives both columns beside the step magnitude
  255, and the strict comparison suppresses both (`Canny.StepEdgeVanishes`).
  The lemmas cover only that unsmoothed input. The program smooths with a
  three-tap kernel first, and a smoothed step is not covered.

Modelling choices:

- Buffers are owned values: every stage reads unmodified inputs and writes a
  fresh output that starts as a copy of the buffer it is seeded from. In the
  Swift code, `PixelBuffer` wraps an `UnsafeMutableBufferPointer`, so each
  `let out = in` shares storage (ViewController.swift:153-154, 189-190, 214,
  236, 261). In particular, the hysteresis seed test here reads the input
  `suppressed` buffer, not the output being grown.
- The orientation test `pi/4 < |atan2(dy, dx)| < 3pi/4` is the integer
  comparison `dy > dx` (`Suppression.IsVertical`). Both derivatives are
  unsigned bytes, so the angle lies in `[0, pi/2]`. It exceeds `pi/4` exactly
  when `dy > dx`. `dy == dx` gives `pi/4` itself, and `atan2(0, 0)` is 0.
- `sqrt` followed by clipping at 255 and truncation to `UInt8` is
  `min(255, ISqrt(dx^2 + dy^2))`. On byte-sized inputs the rounded
  floating-point root never crosses an integer, so the two agree.
- Swift's trapping `UInt8(_:)` conversion is `Gradients.ToUInt8`. Its
  precondition is the no-trap condition, so every use is proved not to trap.
- The `requires` clauses are the dimensions the Swift ranges need. The closed
  ranges `1...width-2` trap below width or height 3. `isMax` reads `x±1` and
  `y±1`, which needs width and height of at least 2. `0...width-1` needs at
  least 1.

## Model

| member | source | states |
|---|---|---|
| PixelBuffers.RowStartIsProduct | CVProject/ViewController.swift:409-415 | the start of row `y` is `y*width`, so the model's row-major position is the `y*width + x` of `get` and `set` |
| PixelBuffers.OffsetInRange | CVProject/ViewController.swift:409-415 | an in-range `(x, y)` gives an index inside the `width*height` storage |
| PixelBuffers.OffsetRoundTrip | CVProject/ViewController.swift:409-415 | the row-major index determines the pixel: dividing by the width gives back `y`, the remainder gives back `x` |
| PixelBuffers.Get | CVProject/ViewController.swift:413-415 | `get(x, y)` of an in-range pixel reads the storage at index `y*width + x`, and that index lies inside the storage |
| PixelBuffers.Set | CVProject/ViewController.swift:409-415 | after `set(x, y, v)`, `get(x, y)` is `v`, every other pixel reads as before, and the dimensions are kept |
| PixelBuffers.SetGetIdentity | CVProject/ViewController.swift:409-415 | writing back the value just read leaves the buffer unchanged |
| Gradients.ToUInt8 | CVProject/ViewController.swift:201-202 | the `UInt8(_:)` conversion is called only on values in `0...255`, so no use traps; the same obligation is discharged for the magnitude conversion at line 228 |
| Arith.ISqrt | CVProject/ViewController.swift:222 | the integer root `r` satisfies `r*r <= n < (r+1)*(r+1)`; it replaces the floating-point `sqrt` |
| Arith.ISqrtUnique | CVProject/ViewController.swift:222 | any `r` with `r*r <= n < (r+1)*(r+1)` is `ISqrt(n)`, so the root is the truncated real square root |
| Arith.RootReaches | CVProject/ViewController.swift:222-226 | `k <= ISqrt(n)` exactly when `k*k <= n`; with `k = 255` this is the clipping test |
| Gradients.Gradient | CVProject/ViewController.swift:188-210 | interior `dx` is the absolute difference of the left and right neighbours in the horizontally smoothed buffer; interior `dy` is that of the upper and lower neighbours in the vertically smoothed buffer; both fit a byte; row/column 0 and the last row/column keep the input values |
| Gradients.GradientOfUniform | CVProject/ViewController.swift:195-202 | a uniform picture has `dx == dy == 0` at every interior pixel |
| Gradients.Magnitude | CVProject/ViewController.swift:219-228 | the clipped magnitude is at least `max(dx, dy)`; it is 0 iff `dx == dy == 0`; it is 255 iff `dx^2+dy^2 >= 255^2`; below 255 it is the integer square root of `dx^2+dy^2` |
| Gradients.GradientMagnitude | CVProject/ViewController.swift:212-233 | interior pixels hold the clipped magnitude of `(dx, dy)`; border pixels keep the `dx` buffer's value |
| Suppression.IsVertical | CVProject/ViewController.swift:240-249 | the orientation test `pi/4 < abs(atan2(dy, dx)) < 3pi/4` on unsigned byte derivatives, as the integer comparison `dy > dx` |
| Suppression.VerticalIsSteep | CVProject/ViewController.swift:243-249 | the orientation test is the slope test of `atan2`: for `dx > 0` a pixel is vertical iff `dy / dx > 1 = tan(pi/4)`; for `dx == 0` iff `dy > 0` (angle `pi/2`, not `0`) |
| Suppression.IsMax | CVProject/ViewController.swift:304-340 | the result is 0 or 255; it is 255 iff the pixel is strictly above every neighbour that exists on the chosen axis (y when vertical, x otherwise), which at index 0 or the last index is the single existing neighbour |
| Suppression.Suppress | CVProject/ViewController.swift:235-258 | every pixel, borders included, becomes 0 or 255; it is 255 iff it is a strict local maximum along y when `dy > dx` and along x otherwise |
| Suppression.SuppressUniform | CVProject/ViewController.swift:238-253 | a magnitude buffer with a single value suppresses to all 0 |
| Suppression.SuppressThins | CVProject/ViewController.swift:316-334 | two adjacent pixels both compared along the axis that joins them are never both 255 |
| Suppression.TiedNeighboursSuppressed | CVProject/ViewController.swift:332-334 | two horizontally adjacent pixels `(x-1, y)` and `(x, y)`, both compared horizontally and of equal magnitude, are both 0 |
| Hysteresis.IsSeed | CVProject/ViewController.swift:265-266 | a seed is a pixel that is 255 after suppression and whose magnitude exceeds `high`; the test reads the unmodified suppressed buffer |
| Hysteresis.WalkUp | CVProject/ViewController.swift:267-273 | the upward walk from `(x, y)` sets to 255 exactly the pixels `(x, v)` with `v <= y` such that every pixel from row `v` to row `y` is above `low`; all else is kept |
| Hysteresis.WalkDown | CVProject/ViewController.swift:274-280 | the downward walk sets exactly the pixels `(x, v)` with `v >= y` whose rows `y .. v` are all above `low` |
| Hysteresis.WalkLeft | CVProject/ViewController.swift:281-287 | the leftward walk sets exactly the pixels `(u, y)` with `u <= x` whose columns `u .. x` are all above `low` |
| Hysteresis.WalkRight | CVProject/ViewController.swift:288-294 | the rightward walk sets exactly the pixels `(u, y)` with `u >= x` whose columns `x .. u` are all above `low` |
| Hysteresis.WalkFromSeed | CVProject/ViewController.swift:267-294 | the four walks together set exactly the pixels on the seed's row or column that are joined to the seed by pixels above `low` |
| Hysteresis.HysteresisThresholding | CVProject/ViewController.swift:260-302 | a pixel is 255 iff it was 255 after suppression or some seed (suppressed 255, magnitude above `high`) reaches it along its row or column through pixels above `low`, itself included; all else keeps the suppressed value; only 255 is ever written, so suppressed 255s stay and a binary input gives a binary output; a promoted pixel has magnitude above `low` |
| Hysteresis.ThresholdConsequences | CVProject/ViewController.swift:260-302 | from the characterisation of the output: every pixel is 255 or its suppressed value, suppressed 255s stay, a binary input gives a binary output, and a promoted pixel is above `low` and reached by a seed |
| Hysteresis.ReachedAboveLow | CVProject/ViewController.swift:268-290 | a pixel reached by a seed's ray has magnitude above `low` |
| Canny.EdgeMask | CVProject/ViewController.swift:88-103 | the edge mask from the two smoothed buffers has their shape, holds only 0 and 255, and every 255 sits on a positive gradient magnitude |
| Canny.SurvivorIsPositive | CVProject/ViewController.swift:304-340 | a strict maximum on its axis, which is what a suppression survivor is, has positive magnitude, because it beats an existing neighbour |
| Canny.StepDx | CVProject/ViewController.swift:196-205 | beside a sharp 0/255 vertical step, `dx` is 255 on both adjacent columns |
| Canny.StepDy | CVProject/ViewController.swift:199-206 | beside the step, `dy` is 0 on both adjacent columns |
| Canny.StepMagnitude | CVProject/ViewController.swift:216-228 | beside the step, both adjacent columns get magnitude 255 and are compared horizontally |
| Canny.StepEdgeVanishes | CVProject/ViewController.swift:88-98 | with both smoothed buffers equal to a sharp step, suppression leaves no edge on either column beside the step |

## Left out

- Kernel construction (`kernelWith`, `normalize`, `sum`, `gaussianIntegralFrom`, `gaussian`): floating-point Riemann integration and normalisation.
- `smooth`: a Double-weighted convolution truncated to a byte, so its values depend on floating point. The model starts from the two smoothed buffers.
- UI and picker code, status-label and activity-indicator updates, the floating-point and image-conversion parts of `performCannyEdgeDetection`, grayscale decode/encode through CoreGraphics, and `UIImage.rotate`: these are platform side effects and foreign calls.
- Storage sharing between buffers and raw allocation: `UnsafeMutableBufferPointer` aliasing is replaced by copy semantics, as described above. The Swift code as written lets a stage read pixels it has already overwritten. It also lets the hysteresis seed test see pixels promoted by earlier walks. In the Swift code every stage buffer is the same storage (ViewController.swift:153-154, 189-190, 214, 236, 261). So as written, `hysteresisThresholding` compares the suppressed 0/255 values against the thresholds, not the magnitudes (ViewController.swift:265-290). None of these effects is modelled: the model compares true magnitudes.
- Floating-point `atan2` and `sqrt`: they are replaced by their exact integer equivalents (`dy > dx`, `ISqrt`), as argued above.
- Threshold validation: the Swift code accepts any `high` and `low` and checks neither their order nor their sign, so the model takes any integers.
- Canny.EdgeMask: states shape, binarity and positive magnitude of edge pixels only. The exact value of each pixel follows from the stage contracts it chains.
