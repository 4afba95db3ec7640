# img-to-mp4 slideshow planning, modelled in Dafny

`shorts.py` is a desktop form around a media library. It turns a folder of
images and an audio file into a slideshow video. The model covers the two
parts of it that decide something:

- **Clip-sequence planning** in `create_slideshow`. This covers which
  directory entries become clips and in what order, how often the image
  list is tiled, and how many clips are kept. It also covers the length
  that the video and the audio are both cut to.
- **Output-name suggestion** in `suggest_output_filename`. This is the
  first of `output1.mp4`, `output2.mp4`, … that does not yet exist in a
  directory.

The model has five modules:

- `Strings` (`strings.dfy`) holds the Python `str` behaviour the code relies on:
  - `endswith`;
  - the code-point order used by `sort`;
  - `str(i)` inside an f-string, proved to read back to `i`;
  - POSIX `os.path.join`.
- `PyOps` (`pyops.dfy`) holds the Python operators on unbounded `int`s, including 0 and negatives (the memory and float limits Python hits on huge values are under "Left out"):
  - floor division `//`;
  - `int(a / b)`, which rounds toward zero;
  - `xs * k`, which is empty for `k <= 0`;
  - `xs[:m]`, where a negative `m` counts from the end.
- `Sorting` (`sorting.dfy`) models `list.sort()` as insertion sort. A lemma proves that any two sorted permutations of a list are equal. So insertion sort gives exactly the list Python's sort gives.
- `Slideshow` (`slideshow.dfy`) is the planning part of `create_slideshow`:
  - A clip is the record `Clip(image, duration, fps, fadeIn)` of what is asked of the media library.
  - The result is a `Video` (clips, cut length, output path) or an `Error`.
  - `NoImages` is the "no images" dialog.
  - `ZeroDivision` is the exception that `end_time // total` raises when the per-image duration is 0.
- `OutputName` (`output_name.dfy`) is `suggest_output_filename`:
  - It is a `while` loop over the set of entry names in the directory.
  - It is proved to return the least free index.
  - It is proved to terminate, because each probe asks about a name never asked before.

The form passes the per-image duration and the end time as plain Python
`int`s from `IntVar`. The model therefore takes `int` and follows Python
on every value Python can compute without running out of memory or float
range. The properties that only hold for a positive duration and a
non-negative end time say so in their `requires`. The audio file's
duration is a `real` input. The directory listing is a `seq<string>`
input.

## Model

| member | source | states |
|---|---|---|
| Slideshow.SuffixFilterExamples | shorts.py:9 | The name test is a case-sensitive suffix test with no dot required: `png` and `scan_jpeg` pass, `photo.PNG` and `clip.gif` do not |
| Slideshow.ImageNames | shorts.py:9 | A name is kept exactly when it is in the listing and ends in `png`, `jpg` or `jpeg`; each kept name occurs as often as in the listing and nothing else is kept |
| Strings.JoinPrefix | shorts.py:9 | What `os.path.join` puts in front of a name: nothing for an empty folder; the folder unchanged when it already ends in `/`; otherwise the folder with one `/` appended |
| Slideshow.ImagePaths | shorts.py:9 | Each image path is the folder joined with the image name at the same position, and still passes the suffix test |
| Strings.LessEq | shorts.py:16 | The string order `sort` uses puts a prefix before every extension of it, and never an extension before its proper prefix |
| Strings.LessEqTotal | shorts.py:16 | Any two strings are comparable |
| Strings.LessEqAntisymmetric | shorts.py:16 | Two strings each at most the other are equal |
| Strings.LessEqTransitive | shorts.py:16 | The order is transitive |
| Slideshow.PlaybackOrder | shorts.py:16 | The playback order is sorted by Python string order and is a permutation of the joined image paths |
| Sorting.Sort | shorts.py:16 | The sorted list is ordered and holds the same strings, with the same multiplicities, as the input |
| Sorting.SortedPermutationUnique | shorts.py:16 | Any two sorted permutations of the same strings are equal, so the playback order does not depend on the sorting algorithm |
| Sorting.SortIsTheSortedPermutation | shorts.py:16 | Whatever sorted permutation a correct `list.sort()` produces is the one the model computes |
| Sorting.SortUnderPrefix | shorts.py:9-16 | Sorting strings that share the folder prefix orders them by the part after the prefix |
| Slideshow.PlaybackOrderIsNameOrder | shorts.py:9-16 | Sorting the joined paths gives the sorted file names, each joined onto the folder: playback follows file-name order |
| Slideshow.CheckedOrder | shorts.py:11-26 | The routine stops with the "no images" error exactly when no entry passes the filter, and with a division-by-zero exactly when there are images but the duration is 0; otherwise it proceeds with the sorted paths |
| Slideshow.CreateSlideshow | shorts.py:7-28 | The whole planning step yields `NoImages` exactly when the folder has no image, `ZeroDivision` exactly when it has images and the duration is 0, and otherwise a plan for the requested output path |
| PyOps.FloorDiv | shorts.py:26 | `a // b` is the quotient rounded toward minus infinity, for either sign of `b` |
| Slideshow.RepeatCount | shorts.py:25-26 | For a positive list length `n * d`, the repeat count `r` is the one with `n * d * (r - 1) <= end_time < n * d * r`; the mirrored bounds hold for a negative length |
| Slideshow.SlotCount | shorts.py:28 | For `d > 0` and `end_time >= 0` the slot count is `end_time div d`; it is 0 exactly when `abs(end_time) < abs(d)` |
| PyOps.TruncDiv | shorts.py:28 | `int(a / b)` is the quotient rounded toward zero: its magnitude is the largest whose multiple of `b` fits in `a`, and its sign is that of `a / b` |
| PyOps.Repeat | shorts.py:27 | `xs * k` has `len(xs) * k` elements (none when `k <= 0`) and element `i` is `xs[i mod len(xs)]` |
| PyOps.Slice | shorts.py:28 | `xs[:m]` is a prefix of `xs`, of length `m` capped at `len(xs)`, and for negative `m` that many elements short of the end |
| Slideshow.MakeClips | shorts.py:19-22 | One clip per image path, in order, each with the chosen duration, 24 fps and a one-second fade-in |
| Slideshow.Assemble | shorts.py:25-37 | The kept clips are a prefix of the tiled list: their number is the slice length of `n * num_repeats` at the slot count, clip `k` shows image `k mod n`, and both tracks are cut to `min(audio, end_time)` |
| Slideshow.RepeatsOverCover | shorts.py:25-27 | With `n > 0` images and `d > 0`, the tiled list lasts `n * d * num_repeats` seconds, strictly more than `end_time` |
| Slideshow.TiledCoversSlots | shorts.py:25-28 | For `d > 0` and `end_time >= 0` the tiled list holds at least `end_time div d` clips, so the slice never runs out |
| Slideshow.ClipCountIsSlotCount | shorts.py:26-28 | For `d > 0` and `end_time >= 0` the plan holds exactly `end_time div d` clips |
| Slideshow.ClipsTileThePlaybackOrder | shorts.py:27-28 | Clip `k` of any plan is sorted image `k mod n`, shown for `d` seconds |
| Slideshow.NegativeEndTimeGivesNoClips | shorts.py:26-28 | With `d > 0` and a negative end time the repeat count is at most 0 and the plan holds no clip |
| Slideshow.PlannedVisualLength | shorts.py:28 | The kept clips last `d * (end_time div d)` seconds, which is at most `end_time` and more than `end_time - d` |
| Slideshow.FinalDuration | shorts.py:35 | The cut length is at most the audio length and at most the end time, and equals one of them |
| Slideshow.DurationIsMinimum | shorts.py:35-37 | Every plan cuts video and audio to `min(audio_duration, end_time)` |
| Slideshow.ThreeImagesExample | shorts.py:9-35 | `c.jpeg, notes.txt, a.png, b.jpg` with 5 s per image and 60 s wanted: 5 repeats, 12 clips cycling a, b, c, cut to 60 s against 90 s of audio |
| Slideshow.TruncatedPlanFallsShort | shorts.py:28-36 | As written: when `d` does not divide `end_time` and the audio lasts at least `end_time`, the clips end before the length the video is cut to |
| Slideshow.TruncatedPlanExample | shorts.py:28-36 | As written: one image, 7 s each, 60 s wanted, 75 s of audio gives 8 clips and 56 s of picture for a 60 s video |
| Slideshow.CoveringSlotCount | shorts.py:28 | Corrected slot count: the fewest clips of `d` seconds that last at least `end_time` |
| Slideshow.CreateCoveringSlideshow | shorts.py:7-36 | The corrected routine keeps the error cases of the original: `NoImages` exactly when no image, `ZeroDivision` exactly when the duration is 0 |
| Slideshow.CoveringPlanCoversDuration | shorts.py:25-36 | Corrected: the clips last at least the cut length and overshoot `end_time` by less than one clip |
| Strings.DecimalRoundTrip | shorts.py:56 | The decimal text of `i` inside the candidate name reads back as `i` |
| OutputName.CandidateName | shorts.py:53-56 | The candidate name starts with `output`, ends with `.mp4`, and between them holds only digits that read back as the index, with no leading zero (the lone digit `0` only for index 0), so the name is exactly `output{i}.mp4` |
| OutputName.CandidateNameInjective | shorts.py:53-56 | Different indices give different candidate names |
| OutputName.SuggestOutputFilename | shorts.py:52-58 | Returns `directory/output{i}.mp4` with `i >= 1`, where that name is free and every `output{j}.mp4` with `1 <= j < i` exists; `i` is at most one more than the number of entries, so the loop ends |
| OutputName.LeastFreeUnique | shorts.py:55-57 | Only one index can be the least free one, so the suggested name is determined by the directory contents |
| OutputName.TwoTakenExample | shorts.py:52-58 | A directory holding `output1.mp4` and `output2.mp4` gets `output3.mp4` |

## Left out

- The tkinter form, its labels and language switch, the translations table, `on_closing`, `show_about` and the `select_*` pickers (shorts.py:48-50, 60-241). They are GUI event handling.
- The message boxes (shorts.py:12, 46). They are UI side effects. The error dialog becomes `Err(NoImages)` and the success dialog becomes an `Ok` result.
- The media library calls `ImageClip`, `set_fps`, `crossfadein`, `concatenate_videoclips`, `subclip`, `set_audio` and `write_videofile`, with the `libx264`/`aac` codecs (shorts.py:19-22, 28, 36-43). They are foreign code. A plan records what is asked of them: the clips with their duration, frame rate and fade, and one cut length for both tracks. Encoding, compositing and any exception they raise are not modelled. This includes what the library does with an empty clip list, which the plan holds whenever `end_time < d` (for `d > 0`).
- `AudioFileClip(...).duration` (shorts.py:31-32) reads a decoded file. It is a `real` input, and a failure to load the audio is not modelled.
- `os.listdir` is a `seq<string>` input. `os.path.exists` is membership in a `set<string>` of the directory's entry names. Both are filesystem reads taken as one snapshot.
- Filesystem behaviour beyond that snapshot is not modelled. `os.listdir` raises on a missing or unreadable folder before the empty check at shorts.py:11, and the default `<script dir>/img` (shorts.py:174) need not exist. `os.path.exists` at shorts.py:56 is not plain membership: it is False for a dangling symlink named `output1.mp4`, and True for `OUTPUT1.MP4` on a case-insensitive filesystem. `os.listdir` returns undecodable bytes as lone surrogates, which a Dafny `char` cannot hold.
- `Strings.Join` models POSIX `os.path.join` only when the second argument does not start with `/`. That always holds here, because directory entries and `output{i}.mp4` contain no `/`. Windows separators are not modelled.
- Python's limits on huge values are not modelled. At shorts.py:27, `clips * num_repeats` raises `MemoryError` when the tiled list cannot be allocated, and `OverflowError` once the count passes `sys.maxsize`. At shorts.py:28, `end_time / duration_per_image` raises `OverflowError` once the quotient leaves the float range. For such values the model returns `Ok` with a plan that Python never builds.
- PyOps.TruncDiv: computes `int(end_time / d)` exactly. Python goes through a float, which can round differently once the operands exceed 2^53.
- A decimal such as `5.5` reaches the routine truncated to `5` by `IntVar.get()`; text that is not a number raises in the button callback and the routine never runs.

## Findings

| source | as written | input that shows it | evidently intended | confidence | as-written member | corrected member |
|---|---|---|---|---|---|---|
| shorts.py:28 | keeps `int(end_time / duration_per_image)` clips, rounding down, then cuts the video to `min(audio_duration, end_time)` at line 36 | `duration_per_image = 7`, `end_time = 60`, a folder with one image, audio of 75 s: 8 clips give 56 s of picture for a 60 s video | round the clip count up, so the clips last at least as long as the cut, as the repetition comment at line 24 says | medium; not executed | Slideshow.TruncatedPlanFallsShort | Slideshow.CoveringPlanCoversDuration |

`CreateSlideshow` models the routine as written. `CreateCoveringSlideshow` is the corrected routine: it has the same checks, order and tiling, but the slot count is rounded up (`CoveringSlotCount`). The tiling still covers the rounded-up count (`TiledCoversCoveringSlots`). The library's behaviour past the end of the clips is not modelled, so what the last seconds actually show is not claimed.
