# Video frame slicing: quality search and sampling loop

`video_to_images.py` turns a video into JPEG stills. It samples frames at a
fixed interval and halves their size. For each frame it tries up to ten
JPEG qualities, from 85 downwards, until the encoded size is below a budget,
and otherwise falls back to 85. The script itself only owns integer control
flow around the multimedia library calls. This project models that control
flow and proves what it guarantees.

- `QualitySearch` (`quality_search.dfy`) models `adjust_jpeg_quality`. The
  encoder is a function value `Encoder = int -> nat` that gives the encoded byte
  length at a quality. The kilobyte target is taken as a byte count: for an
  integer target, `size / 1024 < target` holds exactly when
  `size < target * 1024`. The method `AdjustJpegQuality` is the loop, with a
  local quality that starts at 85 and goes down by 5. It also returns the
  qualities it tried, which are the per-attempt diagnostic lines. It is proved
  equal to the specification functions `Chosen` (the first quality that fits,
  else 85) and `Attempts` (the qualities tried). The lemmas state the source's
  promises about those functions.
- `FrameSampling` (`frame_sampling.dfy`) models the loop of `extract_frames`.
  `frameLimit` stands for `int(fps * duration)` and `intervalFrames` for
  `int(fps * interval)`. Both are given integers. A frame read is a predicate
  `readOk` on the frame index. The encoder of the resized frame at an index is
  `enc(index)`. The method `ExtractFrames` walks `range(0, frameLimit, step)`.
  It returns the files written, as (index, quality) pairs in write order, and
  the indices reported as unreadable. It is proved equal to the specification
  functions `Written`/`Skipped` applied to `Range`. The lemmas then describe
  the sampled indices and which of them produce files.
- `Wrappers` (`wrappers.dfy`) holds the `Option` type.

The frame step is `max(int(fps * interval), 1)` at video_to_images.py:59. That
is truncation, not rounding. At 25 fps with the default 0.033 s
interval, the product is 0.825. Truncation gives 0, so the step becomes 1.
Rounding would give 1 as well, but the two differ for products such as 5.7.

## Model

| member | source | states |
|---|---|---|
| `QualitySearch.AdjustJpegQuality` | video_to_images.py:20-42 | The loop returns the first-fit quality, or 85 on exhaustion. Its trace of encoded qualities equals the attempt sequence that `Chosen`/`Attempts` describe. |
| `QualitySearch.Budget` | video_to_images.py:24 | `range(max_iterations)` makes no pass for a non-positive bound. Otherwise it makes exactly `max_iterations` passes. |
| `QualitySearch.Schedule` | video_to_images.py:22-39 | The quality schedule starts at 85. Entry k is 85 - 5k. Each entry is 5 below the previous one. |
| `QualitySearch.FirstFit` | video_to_images.py:24-39 | The search index, when found, is in range and fits. Every earlier attempt fails. When nothing is found, every attempt in range fails. |
| `QualitySearch.FirstAttemptFits` | video_to_images.py:22-36 | If the size at 85 is already below the target and at least one attempt is allowed, the result is 85 after exactly one attempt. |
| `QualitySearch.AttemptsFollowSchedule` | video_to_images.py:22-39 | The qualities tried are 85, 80, 75, … in order. There are at most `max_iterations` of them, and at least one when the budget is positive. Every attempt except the last fails the target. |
| `QualitySearch.ChosenIsFirstFit` | video_to_images.py:35-39 | If attempt j is the first within the budget that fits, the result is 85 - 5j and exactly j + 1 attempts were made. |
| `QualitySearch.ChosenFitsOrIsDefault` | video_to_images.py:35-42 | Either the result fits and is the last quality tried, or the result is 85 after the whole budget failed. |
| `QualitySearch.ExhaustedFallsBackToDefault` | video_to_images.py:41-42 | If no attempt fits, every scheduled quality is tried and the result is 85. With one or more attempts, 85 is known to miss the target. With two or more, 85 is above the last quality tried. |
| `QualitySearch.ChosenIsScheduledQuality` | video_to_images.py:20-42 | The result is 85 - 5j for some attempt index j inside the budget (j = 0 when the budget is empty). |
| `QualitySearch.DefaultBudgetRange` | video_to_images.py:20-42 | With the default 10 attempts, the result lies in {40, 45, …, 85}. |
| `FrameSampling.FrameStep` | video_to_images.py:59 | The frame step is at least 1 and at least `int(fps * interval)`. It equals that value, or 1 when that value is below 1. |
| `FrameSampling.CeilDivBounds` | video_to_images.py:62 | The count of `range(0, n, step)` is ceil(n / step): 0 for n ≤ 0, and otherwise the least c with n ≤ c·step. |
| `FrameSampling.RangeShape` | video_to_images.py:62 | `range(start, stop, step)` has ceil((stop - start) / step) elements. Element k is start + k·step. |
| `FrameSampling.SampledIsMultiple` | video_to_images.py:62 | Every value `range(0, n, step)` produces is a multiple of the step in [0, n). |
| `FrameSampling.MultipleIsSampled` | video_to_images.py:62 | Every multiple of the step in [0, n) is produced by `range(0, n, step)`. |
| `FrameSampling.SampledIndexMembership` | video_to_images.py:62 | An index is sampled exactly when it is a multiple of the step in [0, n). |
| `FrameSampling.SampleSchedule` | video_to_images.py:59-62 | The sampled indices are 0, step, 2·step, … They are strictly increasing, all in [0, `int(fps*duration)`), and there are ceil(N / step) of them. |
| `FrameSampling.ExtractFrames` | video_to_images.py:59-89 | The loop writes one output per sampled index whose read succeeds, at the quality the search picks, and reports every other sampled index. Both lists are in sampling order. |
| `FrameSampling.WrittenExactly` | video_to_images.py:67-89 | An output exists exactly for the processed indices with a successful read, at `Chosen` for that frame. A report exists exactly for the failed ones. Each index is accounted for once. |
| `FrameSampling.WrittenOrdered` | video_to_images.py:62-89 | When indices are processed in increasing order, the outputs come out in increasing index order. Each failed index is reported once, with no retry. |
| `FrameSampling.ExtractionOutcome` | video_to_images.py:59-89 | End to end: a file is written exactly for the multiples of the step below N whose read succeeds, with the search's quality, in increasing order. Failures are reported once each and do not stop the loop. Written plus reported equals ceil(N / step). |
| `FrameSampling.ScheduleExamples` | video_to_images.py:59-62 | 20 frames with a 5-frame interval sample indices 0, 5, 10, 15. An interval that truncates to 0 frames gives step 1. |

## Left out

- `get_video_duration` (lines 4-18): it opens the video and divides the frame count by the frame rate in floating point. The model takes `int(fps * duration)` as the given integer `frameLimit`. The division by a zero frame rate is therefore not modelled.
- Floating point throughout: `fps * interval`, `fps * duration`, `seconds = i / fps`, the resize dimensions `int(height * resize_factor)` and the `{:.3f}` file name. Indices stand for file names. Any collision of two indices under 3-decimal formatting, which is possible at very high frame rates, is not modelled.
- The video library calls `VideoCapture`, `get`, `set`, `read`, `imencode`, `resize`, `imwrite` and `release`. They appear only as the `readOk` predicate and the `Encoder` functions. The capture position set at line 64 is not modelled as state.
- The file system: `os.makedirs` (line 52), the file write (line 85) and `os.path.getsize` (line 87). A written file is represented by its (index, quality) record.
- Exceptions that end `extract_frames` early: the model assumes every library and file-system call returns normally. In the source, `cv2.resize` raises on a zero dimension (a frame 1 pixel high gives `int(1 * 0.5) == 0`, lines 75-77), `cv2.imencode` can raise on a frame it cannot encode (line 26), and a failed `cv2.imwrite` (line 85) makes `os.path.getsize` raise at line 87 when no file of that name exists yet. Any of these stops the loop with the remaining indices unprocessed; `ExtractFrames` and `ExtractionOutcome` describe only runs in which none of them occurs.
- `FrameSampling.ExtractFrames`: assumes every `cv2.imwrite` succeeds. `imwrite` reports failure by returning False, and line 85 ignores that value. If a file of the same name is left from an earlier run (the name depends only on `i / fps`, line 82), `os.path.getsize` returns the old file's size at line 87 and the loop goes on. The model still records `Output(i, q)` as written in that case, although the file on disk holds the old frame.
- The `print` diagnostics (lines 32, 56, 87, 89). The qualities tried and the unreadable indices are returned instead. The measured sizes in the messages are not.
- The hard-coded entry-point configuration (lines 94-102).
- The encoder model: an `int -> nat` function also receives out-of-range or negative qualities, which occur from the 19th attempt on (85 - 5·18 = -5). How the library clamps such values is not modelled.
