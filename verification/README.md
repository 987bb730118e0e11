# sawdust-watcher in Dafny

A model of the two pieces of sawdust-watcher that hold its logic:

- **The dust-coverage pipeline** (`detect` and `white_pixel_ratio` in
  `sawdust_watcher/detection.py`). A color frame is median-denoised. The
  denoised copy is subtracted from the original with saturation, which
  leaves the fine grain the filter removed. The difference is reduced to
  grayscale, thresholded to a binary frame, and closed with an all-ones
  square kernel over three iterations. The coverage is the fraction of
  cells equal to 255. Every stage image is recorded in a dictionary under
  a fixed name.
- **The monitor loop** (the body of `while True` in `run`,
  `sawdust_watcher/main.py`). This is a single-threaded poll. When no alarm
  is active and the scan interval has elapsed since the window start, it
  scans. A coverage at or above the configured percentage switches the LED
  and the buzzer on. A button press clears the alarm, switches both
  outputs off and restarts the window.

Files and modules:

| file | module | contents |
|---|---|---|
| `wrappers.dfy` | `Wrappers` | `Option`, `Result` |
| `image.dfy` | `Image` | 8-bit samples, gray and BGR frames, `CountWhite`, the exact `Ratio` and `WhitePixelRatio` |
| `filters.dfy` | `Filters` | median filter, saturating subtraction, luma, binary threshold |
| `morphology.dfy` | `Morphology` | clipped-window dilation and erosion, closing, and the proof that closing never darkens a cell |
| `detection.dfy` | `Detection` | `Detect`: parameter checks, the stage dictionary, the ratio |
| `monitor.dfy` | `Monitor` | `Step`, `Run` and their properties |

Modelling choices:

- Frames are immutable nested sequences. A sample is `Byte`, the integers
  0..255. A frame's rectangularity (`Rect`) is required wherever a numpy
  array is assumed, since an array cannot be ragged.
- The coverage ratio is the exact fraction `Ratio(white, total)`. A
  `total` of 0 stands for the NaN that numpy gives for 0/0, and `Exceeds`
  is false for it, as every ordered comparison with NaN is.
  `ExceedsIsRealComparison` proves that the integer cross-multiplication
  `100 * white >= percent * total` is the real-number comparison
  `white / total >= percent / 100`.
- The median filter is given by its definition. Each pixel takes, per
  channel, the lower median of the `k * k` window around it, with
  coordinates outside the frame replaced by the nearest border
  coordinate (replicated border).
- `Luma` uses the standard weights in 14-bit fixed point. Only its range
  and its value on gray pixels are relied upon.
- Closing with `iterations=3` dilates three times and then erodes three
  times. Windows are clipped to the frame: with the default border value,
  cells outside the frame never win a maximum or a minimum. Erosion is
  defined as the dual of dilation (invert, dilate, invert).
- One loop iteration reads the clock twice. `Inputs.now` is the reading of
  the interval test (main.py:70). `Inputs.pressTime` is the reading that
  restarts the window (main.py:94). The scan itself is an input: a
  coverage `Ratio`, or `ScanFailed` for an exception from capture or
  detection.

Behaviour of the code worth knowing:

- The threshold stage keeps a cell exactly when gray > `threshold`
  (strict), not >=.
- The closing stage always runs. Its three iterations mean three
  dilations followed by three erosions. The proved `CloseExtensive` shows
  that closing can only add white cells, so it cannot remove false
  positives.
- The line after raising the alarm clears `alarm_active` again. So no
  iteration ever starts with the flag up (`AlarmFlagNeverRaised`), and a
  scan stays due on every iteration until a press. The LED and the buzzer
  still latch on until a press (`OutputsHeldUntilPressed`).
- The loop has no exception handler. A failed scan ends `run` (`Crashed`)
  instead of being skipped.
- The interval test is the inequality `now >= time_start + scan_interval`.
  The window start moves only on a press.

## Model

| member | source | states |
|---|---|---|
| Image.WhitePixelRatio | sawdust_watcher/detection.py:63-69 | the numerator is the number of occurrences of 255 among all cells of the frame in row-major order (`img == 255` summed); the denominator is the number of cells (`img.size`), which is rows × columns; the numerator never exceeds the denominator; the ratio is NaN exactly for an empty frame |
| Image.CountRowIsMultiplicity | sawdust_watcher/detection.py:69 | the white count of a row is the multiplicity of 255 in the row's multiset of samples |
| Image.CountWhiteIsMultiplicity | sawdust_watcher/detection.py:69 | the white count of a frame is the multiplicity of 255 among the cells of the flattened frame |
| Image.FlattenSize | sawdust_watcher/detection.py:69 | a rectangular frame flattens to rows × columns cells, the value of `img.size` |
| Image.CountWhiteZero | sawdust_watcher/detection.py:69 | the white count is 0 if and only if no cell equals 255 |
| Image.CountWhiteFull | sawdust_watcher/detection.py:69 | the white count equals the cell count if and only if every cell equals 255 |
| Image.CoverageBounds | sawdust_watcher/detection.py:63-69 | for a non-empty frame the ratio lies in [0, 1]; it is 0 exactly when no cell is 255 and 1 exactly when all are |
| Image.DiagonalRatio | tests/test_detection.py:18-28 | the 3×3 diagonal frame has ratio 3/9, which is exactly 1/3 |
| Filters.Median | sawdust_watcher/detection.py:109 | the result is the lower median: more than half of the samples are at or below it, and no smaller value has that property |
| Filters.MedianOfConstant | sawdust_watcher/detection.py:109 | the median of a constant sample is that constant |
| Filters.MedianIsSample | sawdust_watcher/detection.py:109 | the median is one of the samples |
| Filters.MedianBlur | sawdust_watcher/detection.py:109 | denoising keeps the frame's shape |
| Filters.MedianBlurUniform | sawdust_watcher/detection.py:109 | denoising a one-color frame returns it unchanged |
| Filters.SatSub | sawdust_watcher/detection.py:116 | the saturating difference never exceeds the minuend and never wraps; it is 0 exactly when a <= b, and otherwise adding b back restores a |
| Filters.Subtract | sawdust_watcher/detection.py:116 | the difference frame has the original's shape and is the channel-wise saturating difference |
| Filters.SubtractSelf | sawdust_watcher/detection.py:116 | a frame minus itself is black |
| Filters.Luma | sawdust_watcher/detection.py:123 | a gray pixel converts to its own value |
| Filters.Grayscale | sawdust_watcher/detection.py:123 | conversion keeps the frame's shape and converts each pixel on its own |
| Filters.GrayscaleOfBlack | sawdust_watcher/detection.py:123 | a black color frame gives a black gray frame |
| Filters.Threshold | sawdust_watcher/detection.py:130 | the output has the input's shape, is binary, and a cell is 255 if and only if the gray value is strictly above the threshold |
| Filters.ThresholdIdempotent | sawdust_watcher/detection.py:130 | thresholding the binary output again at any level in [0, 254] changes nothing |
| Filters.ThresholdOfBlack | sawdust_watcher/detection.py:130 | a black frame stays black under any threshold in range |
| Morphology.Close | sawdust_watcher/detection.py:137-138 | closing keeps the frame's shape; this contract states shape only, and what closing does to the cells is stated by CloseKeeps and CloseExtensive |
| Morphology.WindowMax | sawdust_watcher/detection.py:137-138 | the value is at least every cell within the kernel's reach that lies inside the frame, and equals one of them |
| Morphology.WindowMin | sawdust_watcher/detection.py:137-138 | the value is at most every cell within the kernel's reach that lies inside the frame, and equals one of them |
| Morphology.Dilate | sawdust_watcher/detection.py:138 | dilation keeps the shape and takes each cell to its window maximum |
| Morphology.Erode | sawdust_watcher/detection.py:138 | erosion keeps the shape and takes each cell to its window minimum |
| Morphology.CloseKeeps | sawdust_watcher/detection.py:137-138 | closing maps a binary frame to a binary frame and a constant frame to itself |
| Morphology.ErodeMonotone | sawdust_watcher/detection.py:138 | erosion preserves the cell-wise order of two frames |
| Morphology.ErodeDilateAbove | sawdust_watcher/detection.py:138 | eroding a dilation never darkens a cell |
| Morphology.CloseExtensive | sawdust_watcher/detection.py:137-138 | closing with any number of iterations never darkens a cell |
| Morphology.CountWhiteMonotone | sawdust_watcher/detection.py:145 | a frame that is cell-wise brighter has at least as many white cells |
| Detection.Lookup | sawdust_watcher/detection.py:105-139 | a dictionary lookup finds an entry exactly when the name is a key, and returns the frame stored under it |
| Detection.RunPipeline | sawdust_watcher/detection.py:108-138 | the last stage has the input's shape; this contract states shape only, and the meaning of the stages is stated by DetectThresholdStage, DetectDifferenceStage, CloseKeeps, CloseExtensive and DetectRatioOfMorph |
| Detection.RecordLookup | sawdust_watcher/detection.py:104-139 | looking up each of the six stage names in a recorded dictionary returns that stage's own image |
| Detection.DetectStagesRecorded | sawdust_watcher/detection.py:104-147 | in the dictionary `detect` returns, "original" holds the input and "denoise", "difference", "grayscale", "threshold" and "morph" hold the denoised, difference, gray, threshold and closed images of the run |
| Detection.Record | sawdust_watcher/detection.py:105-139 | the dictionary keys are original, denoise, difference, grayscale, threshold, morph in insertion order; "original" holds the input and "morph" the closed frame |
| Detection.Detect | sawdust_watcher/detection.py:101-147 | an even noise size, then a threshold outside [0, 255], then an even morph size are rejected, in that order; then a noise size outside the C `int` range fails argument conversion, an empty frame or a non-positive noise size is refused by the median filter, and a negative morph size is refused by the kernel constructor; success happens exactly when none of these apply, apart from the padding and memory limits listed under "## Left out"; a result records all six stages with the input as "original" |
| Detection.DetectRatioOfMorph | sawdust_watcher/detection.py:136-147 | the returned ratio is the white-pixel ratio of the frame recorded as "morph", which is binary, has the input's shape, is never NaN, and lies in [0, 1] |
| Detection.DetectThresholdStage | sawdust_watcher/detection.py:129-131 | the threshold stage is binary, and a cell is 255 exactly where the grayscale stage is strictly above the threshold |
| Detection.DetectDifferenceStage | sawdust_watcher/detection.py:115-117 | every channel of the difference stage is the original's channel minus the denoised one, clamped at 0, and never above the original |
| Detection.ClosingNeverLowersCoverage | sawdust_watcher/detection.py:136-145 | the returned white count is at least the white count of the threshold stage |
| Detection.UniformFrameHasNoCoverage | sawdust_watcher/detection.py:108-145 | a one-color frame has coverage exactly 0 under every accepted parameter set |
| Detection.DefaultsAccepted | sawdust_watcher/detection.py:72-103 | with the default parameters, detection succeeds exactly on non-empty frames |
| Monitor.Init | sawdust_watcher/main.py:64-65 | the state before the first iteration: flag down, window opened at the start reading, LED and buzzer off; no contract of its own, and `AlarmFlagNeverRaised` states what follows from it |
| Monitor.Run | sawdust_watcher/main.py:67-96 | the `while True` loop as repeated `Step`s, ending at the first uncaught exception; no contract of its own, and `RunKeepsReachable`, `DueUntilPressed` and `OutputsHeldUntilPressed` state its properties |
| Monitor.Exceeds | sawdust_watcher/main.py:81-84 | the inclusive coverage test by cross-multiplication; no contract of its own, and `ExceedsIsRealComparison` states that it is the real comparison coverage >= percent / 100, false for NaN |
| Monitor.Step | sawdust_watcher/main.py:67-96 | the iteration crashes exactly when a scan is due and fails; otherwise the alarm flag afterwards is "it was up and no press"; the window start moves only on a press, to the press time; a press turns both outputs off; without a press an output is on exactly when it was on or a due scan reached the threshold |
| Monitor.ExceedsIsRealComparison | sawdust_watcher/main.py:81-84 | the integer test equals the inclusive comparison coverage >= percent / 100, and is false for a NaN coverage |
| Monitor.PressResets | sawdust_watcher/main.py:91-96 | a press that is reached yields flag down, window start = press time, and both outputs off, whatever the state before |
| Monitor.QuietIterationChangesNothing | sawdust_watcher/main.py:67-96 | with no press and no due scan that fails or reaches the threshold, the state is unchanged |
| Monitor.AlarmLeavesScanDue | sawdust_watcher/main.py:81-89 | after a scan reaches the threshold, both outputs are on, the flag is down again, and a scan is still due at any later clock reading |
| Monitor.DueUntilPressed | sawdust_watcher/main.py:69-94 | once a scan is due, then across any run without a press and with a non-decreasing clock, the window start stays fixed and a scan stays due |
| Monitor.OutputsHeldUntilPressed | sawdust_watcher/main.py:86-96 | once on, the LED and buzzer stay on through any run without a press |
| Monitor.RunKeepsReachable | sawdust_watcher/main.py:64-96 | every run keeps the alarm flag down and the LED equal to the buzzer |
| Monitor.AlarmFlagNeverRaised | sawdust_watcher/main.py:64-89 | from the initial state (flag down, window opened at start) no run ever reaches a state with the flag up |
| Monitor.TenPercentRaisesAlarm | sawdust_watcher/main.py:67-89 | with a 5 s interval and a 5 % threshold, a 10 % scan at t = 5 switches both outputs on, and they stay on until a press |

## Left out

- `load_image`, `write_image` and `rescale_image` (detection.py:12-60) are
  file I/O and floating-point resizing.
- The `interactive` previews (detection.py:111-142) are UI only.
- Filters.MedianBlur: follows the median's definition and the
  replicated-border rule. OpenCV's histogram and SIMD implementations are
  not modelled.
- Filters.Luma: states only the range and the value on gray pixels. The
  exact rounding of OpenCV's color conversion is library code, so the
  fixed-point weights in the body are not claimed as a property.
- Detection.Detect: the refusals after the assertions come from the
  libraries, not from the repository's code. OpenCV's argument conversion
  refuses a noise size outside the C `int` range. `cv.medianBlur` refuses
  an empty frame and a non-positive aperture. `np.ones` refuses a negative side.
  Their exception types are not distinguished beyond `DetectError`.
- Detection.Detect: has no memory or internal size bound, and succeeds
  where the libraries run out of either. A morph size too large for memory
  makes `np.ones` raise `MemoryError`. For an aperture above 5,
  `cv.medianBlur` first pads the frame by `noise_size / 2` replicated
  columns on each side. It raises when columns + `noise_size` − 1 exceeds a
  C `int` or the padded frame does not fit in memory. For example,
  `noise_size` = 2^31 − 1 fails on any frame at least two columns wide,
  while the model returns a ratio.
- Detection.Detect: takes only 3-channel frames. A single-channel input
  would make the grayscale conversion raise, and this is not modelled.
- Image.WhitePixelRatio: defined on single-channel frames only, which is
  the only way `detect` and the test use it.
- Monitor.Exceeds: `coverage_threshold_percent` is an integer here. The
  configuration reads it as a float, and fractional percentages and
  floating-point rounding of the ratio are not modelled.
- Monitor.Step: clock readings are exact reals. Float precision of
  `time.time()` is not modelled.
- Monitor.Step: takes the scan's outcome as an input. The call sites
  around it cannot run as written: `Path + str` (main.py:43), `grab_frame`
  called with one argument (main.py:73), `detect` called with an
  `output_path` keyword it does not accept and its tuple result used as a
  number (main.py:75-79).
- Logging, configuration parsing, docopt and gpiozero object construction
  (main.py:37-60, 99-105) are process set-up. Both outputs start off, as
  gpiozero's LED and Buzzer do by default.
- `sawdust_watcher/gpio_control.py` drives the camera and sleeps: hardware
  I/O and timing.
- `sawdust_watcher/noise_detector.py` is an exploratory script using
  non-local-means denoising and Otsu thresholding inside OpenCV.
- The `cv.imwrite` return value asserted in tests/test_detection.py:50 is
  I/O (and `write_image` returns `None`).
