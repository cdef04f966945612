# flash-detector: time strings, detector state and visualiser windows

This project models three small parts of the flash detector, a tool that
scans a video for regions that flash periodically, and proves properties
about them.

- **Time strings** (`time_utils.dfy`, module `TimeUtils`).
  - `time_str_to_seconds` reads `"M:S"` or a plain number of seconds. It
    gives 0 for anything it cannot read: a part that is not a number, or
    more than one `:`.
  - `format_time` prints seconds as `MM:SS.ss`.
  - Python's `float()` is modelled on a restricted decimal grammar: an
    optional sign, then digits with an optional fraction. The number read
    is an exact `Decimal` numeral, and `Decimal.Value()` gives its exact
    real value.
  - `str.split(':')` is `SplitOn`, with `Join` as its inverse.
  - `f"{m:02d}"` and `f"{s:05.2f}"` are built from the digit, zero-padding
    and sign rules of Python's format specifications.
- **Detector state** (`detector.dfy`, module `Detector`).
  - `FlashDetectorBuffer` is a class holding the three tuning parameters, a
    frame buffer and a brightness cache. The frame buffer is a
    `deque(maxlen=buffer_size)`: a sequence updated in place by
    `AppendFrame`. The brightness cache is a map.
  - A ghost `History` records every frame appended. `Valid()` ties the
    buffer to the newest `bufferSize` frames of that history.
- **Visualiser windows** (`visualizer.dfy`, module `Visualizer`).
  - `create_diff_map` is modelled as a method. It clamps a window around
    the detection, allocates a zero map the size of the frame, and fills
    only the window in nested loops. It returns `None` where Python raises
    and the function catches the exception:
    - an empty frame;
    - a window whose `np.ogrid` shape does not broadcast to the target
      slice. numpy's negative-index wrap-around and clamping are modelled
      by `SliceBound`.
  - `create_region_detail` copies the numpy slice of the frame and returns
    where its crosshair is drawn inside the copy: the centre of the crop,
    which is not the detection near an edge (see Findings).
- `wrappers.dfy` holds the `Option` type and `arith.dfy` Python's `min` and `max`.

## Model

| member | source | states |
|---|---|---|
| TimeUtils.SplitOn | src/flash_detector/core/utils.py:9 | `str.split` on one character: one more part than there are separators, no part contains the separator, and joining the parts with it gives back the input |
| TimeUtils.SplitJoin | src/flash_detector/core/utils.py:9 | the other direction: splitting a join of separator-free parts gives back exactly those parts |
| TimeUtils.SplitTwo | src/flash_detector/core/utils.py:9 | a text with one separator between two separator-free parts splits into exactly those two parts |
| TimeUtils.ParseNumber | src/flash_detector/core/utils.py:9-11 | `float()` on the restricted grammar: a result only for non-empty text; negative exactly when the text starts with '-'; a run of digits reads as its decimal value; which texts it accepts is stated by `NumberGrammar`, and the value of every signed or unsigned numeral by `ParseInteger` and `ParseDecimal` |
| TimeUtils.UnsignedGrammar | src/flash_detector/core/utils.py:9-11 | the unsigned reading succeeds if and only if the text is digits and at most one '.', with at least one digit |
| TimeUtils.NumberGrammar | src/flash_detector/core/utils.py:9-11 | the restricted `float()` succeeds if and only if the text is an optional '+' or '-' followed by an unsigned numeral |
| TimeUtils.ParseDecimal | src/flash_detector/core/utils.py:9-11 | an optional '+' or '-', digits, '.', digits, with at least one digit on either side ("-1.5", "+2.25", ".5", "5."), read as the numeral with those units, that fraction and that many decimal places, negative exactly after '-' |
| TimeUtils.ParseInteger | src/flash_detector/core/utils.py:9-11 | an optional '+' or '-' followed by a run of digits reads as the whole number the digits spell, negative exactly after '-' |
| TimeUtils.TimeStrToSeconds | src/flash_detector/core/utils.py:5-13 | total; two or more ':' give 0; without ':' a number is returned as read and a non-number gives 0 |
| TimeUtils.ColonForm | src/flash_detector/core/utils.py:8-13 | `"M:S"` gives M*60+S when both parts are numbers and 0 when either is not |
| TimeUtils.ColonNonNumeral | src/flash_detector/core/utils.py:8-13 | `"M:S"` where M or S is not a numeral gives 0 |
| TimeUtils.PlainGrammar | src/flash_detector/core/utils.py:11-13 | without ':', a numeral is returned as read and any other text gives 0 |
| TimeUtils.ColonDigits | src/flash_detector/core/utils.py:8-10 | two runs of digits around one ':' read as minutes*60+seconds |
| TimeUtils.TimeStrOneThirty | tests/test_utils.py:6 | "1:30" reads as 90 |
| TimeUtils.TimeStrZeroFortyFive | tests/test_utils.py:7 | "0:45" reads as 45 |
| TimeUtils.TimeStrNegativeFraction | src/flash_detector/core/utils.py:8-10 | "0:-1.5" reads as -1.5: a signed fraction is a number in the seconds field |
| TimeUtils.TimeStrLeadingPoint | src/flash_detector/core/utils.py:11 | ".5" reads as 0.5: a numeral may have no whole part |
| TimeUtils.TimeStrInvalid | tests/test_utils.py:8 | "invalid" reads as 0 |
| TimeUtils.TimeStrDefault | src/flash_detector/interface/cli.py:19 | the default start time "0:00" reads as 0 |
| TimeUtils.TimeStrPlain | src/flash_detector/core/utils.py:11 | the plain number "45" reads as 45 (the general case is stated by `TimeStrToSeconds` and `PlainGrammar`) |
| TimeUtils.TimeStrEmptySeconds | src/flash_detector/core/utils.py:9-13 | an empty part ("1:") is not a number, so the result is 0 |
| TimeUtils.TimeStrTwoColons | src/flash_detector/core/utils.py:9-13 | three parts cannot be unpacked into minutes and seconds, so "1:2:3" gives 0 |
| TimeUtils.Minutes | src/flash_detector/core/utils.py:17 | `int(seconds // 60)` is the whole minutes: minutes*60 <= seconds < (minutes+1)*60 |
| TimeUtils.Remainder | src/flash_detector/core/utils.py:18 | `seconds % 60` lies in [0, 60) and minutes*60 + remainder == seconds |
| TimeUtils.FormatInt | src/flash_detector/core/utils.py:19 | `{:02d}` is at least two characters and never contains ':'; it is all digits for a non-negative count, a '-' then digits for a negative one, and exactly two characters for 0..99 |
| TimeUtils.FormatIntMinimal | src/flash_detector/core/utils.py:19 | the `0` flag pads only up to the width: a `{:02d}` field longer than two characters has no leading zero, so -5 prints as "-5" and 123 as "123" |
| TimeUtils.ParseFormatInt | src/flash_detector/core/utils.py:19 | reading a `{:0Nd}` field back with `float` gives the integer, negative ones included |
| TimeUtils.FormatFixed2 | src/flash_detector/core/utils.py:19 | `{:.2f}` of a non-negative whole number of hundredths is digits, '.', exactly two digits, and whole part plus hundredths spell the value |
| TimeUtils.FormatFixed2Minimal | src/flash_detector/core/utils.py:19 | `{:.2f}` puts no leading zero before the point: the whole part is "0" or starts with a non-zero digit, so 5.5 prints as "5.50" |
| TimeUtils.FormatTime | src/flash_detector/core/utils.py:15-19 | the output is the `{:02d}` minutes field, ':', two digits of whole seconds, '.', two digits of hundredths (the `{:05.2f}` field is always five characters); its layout, exact text and round trip are `FormatTimeLayout`, `FormatTimeText` and `FormatTimeRoundTrip` |
| TimeUtils.FormatTimeFields | src/flash_detector/core/utils.py:15-19 | the minutes, whole seconds and hundredths printed by `format_time` add up to the input |
| TimeUtils.FormatTimeLayout | src/flash_detector/core/utils.py:19 | ':' is six characters and '.' three characters from the end; every other character is a digit for non-negative input; eight characters below 100 minutes |
| TimeUtils.FormatTimeText | src/flash_detector/core/utils.py:19 | below 100 minutes: exactly two digits of minutes, ':', two digits of seconds, '.', two digits of hundredths |
| TimeUtils.FormatTimeNinety | tests/test_utils.py:11 | 90 s prints as "01:30.00" |
| TimeUtils.FormatTimeFortyFive | tests/test_utils.py:12 | 45 s prints as "00:45.00" |
| TimeUtils.FormatTimeRoundTrip | src/flash_detector/core/utils.py:5-19 | `time_str_to_seconds(format_time(s)) == s` for every whole number of hundredths, negative values included |
| Detector.DequeAppend | src/flash_detector/core/detector.py:13 | `deque.append` with a bound: never exceeds the bound; below the bound the item is added at the end; when full the oldest item is dropped first; bound 0 stays empty |
| Detector.NewestAppend | src/flash_detector/core/detector.py:13 | appending to the newest n items of a history gives the newest n items of the extended history |
| Detector.AppendAllKeepsNewest | src/flash_detector/core/detector.py:13 | any run of appends keeps exactly the newest `maxlen` items received, in arrival order |
| Detector.AppendAllFromEmpty | src/flash_detector/core/detector.py:13 | from an empty deque, n appends leave the last min(n, maxlen) items, oldest first |
| Detector.FullBufferDropsOldest | src/flash_detector/core/detector.py:13 | appending to a full buffer keeps its length, drops exactly the oldest item and puts the new one last |
| Detector.FlashDetectorBuffer.constructor | src/flash_detector/core/detector.py:7-14 | the parameters are stored unchanged, with defaults 5, 20 and 30; the frame buffer and the brightness cache start empty |
| Detector.FlashDetectorBuffer.AppendFrame | src/flash_detector/core/detector.py:13 | the buffer becomes `DequeAppend` of the old buffer, it is still the newest `buffer_size` frames of everything appended, and the cache is unchanged |
| Detector.FlashDetectorBuffer.BufferedCount | src/flash_detector/core/detector.py:13 | the buffer's length never exceeds `buffer_size` and equals min(frames appended, `buffer_size`) |
| Detector.NewDefaultDetector | src/flash_detector/core/detector.py:7 | a detector built with the defaults has buffer size 5, region size 20 and threshold 30, and empty buffer and cache |
| Visualizer.ClampedWindow | src/flash_detector/visualization/visualizer.py:13-16 | the window is clamped: 0 <= x1, 0 <= y1, x2 <= width, y2 <= height, and it lies within the unclamped square |
| Visualizer.WindowMembership | src/flash_detector/visualization/visualizer.py:13-16 | a cell is in the window if and only if it is in the frame and in the unclamped square around the point |
| Visualizer.WindowContainsPoint | src/flash_detector/visualization/visualizer.py:13-16 | with a positive region size, a point inside the frame lies in its window: x1 <= x < x2 and y1 <= y < y2 |
| Visualizer.WindowInterior | src/flash_detector/visualization/visualizer.py:13-16 | at least the region size from every edge, the window is exactly [x-r, x+r) x [y-r, y+r) |
| Visualizer.SliceBound | src/flash_detector/visualization/visualizer.py:20 | numpy's slice bound on an axis of length n: in [0, n]; an in-range bound is unchanged, a negative one counts from the end and stops at 0, one past the end becomes n |
| Visualizer.AxisFits | src/flash_detector/visualization/visualizer.py:18-20 | one axis of the fill broadcasts if and only if its high bound is non-negative or wraps to no later than the low bound; then the ogrid and the slice have the same length, and a non-empty axis is sliced exactly at [lo, hi) |
| Visualizer.DiffMapFits | src/flash_detector/visualization/visualizer.py:13-20 | the fill raises exactly when one of the window's high bounds is negative and wraps past the low bound |
| Visualizer.InFrameFits | src/flash_detector/visualization/visualizer.py:13-20 | a detection inside the frame with a non-negative region size always gets its heat map |
| Visualizer.CreateDiffMap | src/flash_detector/visualization/visualizer.py:5-27 | `None` exactly for an empty frame or a fill that does not broadcast; otherwise a fresh map of the frame's shape where each window cell holds the heat of its offset from the detection and every other cell is 0 |
| Visualizer.DetailSize | src/flash_detector/visualization/visualizer.py:33 | the detail side is at least 100 and at least twice the region size, and equals one of the two |
| Visualizer.DetailHalf | src/flash_detector/visualization/visualizer.py:34-37 | the half-side `size // 2` is at least 50 and at least the region size, and twice it is the side rounded down to even |
| Visualizer.DetailWindow | src/flash_detector/visualization/visualizer.py:34-37 | the detail window lies in the frame, within half the detail size of the detection on every side, and no side is longer than the detail size |
| Visualizer.DetailWindowBounds | src/flash_detector/visualization/visualizer.py:33-37 | for a detection in the frame: 0 <= x1 <= x <= x2 <= width, and the same for y |
| Visualizer.CrosshairCentre | src/flash_detector/visualization/visualizer.py:40-41 | the crosshair is at half the crop's width and height, rounded down: 2*cx <= x2-x1 <= 2*cx+1, and the same for y |
| Visualizer.CrosshairInside | src/flash_detector/visualization/visualizer.py:40-41 | for a detection in the frame the crosshair ((x2-x1)//2, (y2-y1)//2) lies in the crop whenever the crop is not empty |
| Visualizer.CrosshairMissesDetection | src/flash_detector/visualization/visualizer.py:40-45 | at (10, 10) with region size 20 in a 480 x 480 frame the crosshair is at (30, 30) in the crop while the detection is at (10, 10) |
| Visualizer.DetectionMarkInside | src/flash_detector/visualization/visualizer.py:34-41 | the detection's own position in the crop lies inside the crop for every detection in the frame, and equals the crosshair centre away from the edges |
| Visualizer.CreateRegionDetail | src/flash_detector/visualization/visualizer.py:29-41 | a fresh copy of `frame[y1:y2, x1:x2]` with numpy's slice bounds, cell for cell, together with the crosshair position `((x2-x1)//2, (y2-y1)//2)` in the copy |

## Left out

- TimeUtils.ParseNumber: only an optional sign, digits and an optional fraction are read. Python's `float` also accepts surrounding whitespace, underscores between digits, exponents, `inf` and `nan`, and non-ASCII decimal digits such as full-width "１" or Arabic-Indic "٣" (so Python reads "１:30" as 90). The model reads these as not a number, so `TimeStrToSeconds` gives 0 for them.
- TimeUtils.TimeStrToSeconds: numbers are exact reals, not IEEE doubles. The rounding of `float()` and of `minutes * 60 + seconds` is not modelled.
- TimeUtils.FormatTime: the input must be a whole number of hundredths of a second. Binary rounding in `{:05.2f}` is not modelled; for example, 59.999 prints "00:60.00".
- `check_circularity` (src/flash_detector/core/utils.py:21-54) is not part of this model. It wraps OpenCV contour functions and floating-point shape measures.
- The detection algorithm of `FlashDetectorBuffer` is not part of this model. Only the constructor appears in src/flash_detector/core/detector.py.
- Detector.FlashDetectorBuffer.constructor: `buffer_size` is a natural number.
  - Python raises `ValueError` for a negative `maxlen`.
  - Python accepts `None`, which gives an unbounded deque.
  - Neither case is modelled.
  - `region_size` and `diff_threshold` are integers.
  - The key and value types of the brightness cache are type parameters, because no code shown uses the cache.
- Visualizer.CreateDiffMap: the heat value of a cell is a parameter `heat(dx, dy)` into 0..255. It stands for the float32 `exp(-(dx^2+dy^2)/r^2) * 255` cast to `uint8`, which is not computed. Other gaps:
  - `cv2.applyColorMap` is not modelled; the result is the intensity map before colour mapping.
  - The grey-scale conversion's rejection of frames is modelled only for empty frames, not for the wrong number of channels.
  - The error message printed on failure is left out.
- Visualizer.CreateRegionDetail: the two `cv2.line` calls, and any failure they could raise on an empty crop, are not modelled. The method returns the position where they draw, `CrosshairCentre`; the detection's own position in the crop is `DetectionMark` (see Findings).
- Visualizer.CrosshairInside: it holds only for detections inside the frame. For a point left of the frame by more than the half-side, the negative `x2` wraps in the slice, while `(x2 - x1) // 2` does not.
- src/flash_detector/interface/gui.py, src/flash_detector/interface/cli.py, src/flash_detector/main.py and setup.py are not part of this model. They contain UI, argument parsing, entry points and packaging.

## Findings

| source | as written | input that shows it | evidently intended | confidence | as-written member | corrected member |
|---|---|---|---|---|---|---|
| src/flash_detector/visualization/visualizer.py:40-45 | the crosshair is drawn at the centre of the crop, `((x2-x1)//2, (y2-y1)//2)` | detection at (10, 10), region size 20, 480 x 480 frame: crop [0, 60) x [0, 60), crosshair at (30, 30), detection at (10, 10) | mark the detection, at `(x - x1, y - y1)` in the crop, which is the centre only away from the edges | medium; not executed | Visualizer.CrosshairMissesDetection | Visualizer.DetectionMarkInside |
