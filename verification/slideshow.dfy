/**
 The planning half of `create_slideshow`: which files become clips, in which
 order, how often the image list is tiled, how many clips are kept, and the
 length both tracks are cut to. The media library itself is not modelled;
 a clip is the record of what the routine asks the library for.
 */
module Slideshow {
  import opened Strings
  import opened PyOps
  import opened Sorting

  /** Frame rate given to every clip and to the encoder. */
  const FramesPerSecond: nat := 24
  /** Length of the fade-in applied to every clip. */
  const FadeInSeconds: nat := 1

  /** `ImageClip(path).set_duration(duration).set_fps(fps).crossfadein(fadeIn)` */
  datatype Clip = Clip(image: string, duration: int, fps: nat, fadeIn: nat)

  /** The two ways the planning stops: the user-facing "no images" dialog, and
      the `ZeroDivisionError` that `end_time // total` raises when the
      per-image duration is 0. */
  datatype Error = NoImages | ZeroDivision

  datatype Result<T> = Ok(value: T) | Err(error: Error)

  /** The request handed to the media library: the clips in playback order,
      the length the video and the audio are both cut to, and the output path. */
  datatype Video = Video(clips: seq<Clip>, duration: real, output: string)

  /** The name filter: a suffix test, case-sensitive, with no dot required. */
  predicate IsImageName(name: string) {
    EndsWith(name, "png") || EndsWith(name, "jpg") || EndsWith(name, "jpeg")
  }

  /** The filter needs no dot and ignores nothing about case: a bare `png` or
      `scan_jpeg` passes, `photo.PNG` and `clip.gif` do not. */
  lemma SuffixFilterExamples()
    ensures IsImageName("png") && IsImageName("scan_jpeg") && IsImageName("a.jpg")
    ensures !IsImageName("photo.PNG") && !IsImageName("clip.gif") && !IsImageName("pn")
  {
    assert "photo.PNG"[6..] == "PNG";
    assert "photo.PNG"[5..] == ".PNG";
  }

  /** The directory entries the slideshow uses, in listing order. */
  function ImageNames(listing: seq<string>): (r: seq<string>)
    ensures forall x :: x in r <==> x in listing && IsImageName(x)
    ensures forall x :: multiset(r)[x] == (if IsImageName(x) then multiset(listing)[x] else 0)
  {
    if |listing| == 0 then []
    else
      assert listing == [listing[0]] + listing[1..];
      var rest := ImageNames(listing[1..]);
      if IsImageName(listing[0]) then [listing[0]] + rest else rest
  }

  /** The entries joined onto the folder, as the list comprehension builds them. */
  function ImagePaths(folder: string, listing: seq<string>): (r: seq<string>)
    ensures |r| == |ImageNames(listing)|
    ensures forall i :: 0 <= i < |r| ==> r[i] == Join(folder, ImageNames(listing)[i])
    ensures forall i :: 0 <= i < |r| ==> IsImageName(r[i])
  {
    var names := ImageNames(listing);
    var r := Prefixed(JoinPrefix(folder), names);
    forall i | 0 <= i < |r|
      ensures IsImageName(r[i])
    {
      assert names[i] in names;
      EndsWithUnderPrefix(JoinPrefix(folder), names[i], "png");
      EndsWithUnderPrefix(JoinPrefix(folder), names[i], "jpg");
      EndsWithUnderPrefix(JoinPrefix(folder), names[i], "jpeg");
    }
    r
  }

  /** The full paths after `image_files.sort()`. */
  function PlaybackOrder(folder: string, listing: seq<string>): (r: seq<string>)
    ensures Sorted(r)
    ensures multiset(r) == multiset(ImagePaths(folder, listing))
  {
    Sort(ImagePaths(folder, listing))
  }

  /** Sorting the joined paths is the same as sorting the bare names and then
      joining them: the playback order is the order of the file names. */
  lemma PlaybackOrderIsNameOrder(folder: string, listing: seq<string>)
    ensures PlaybackOrder(folder, listing) == Prefixed(JoinPrefix(folder), Sort(ImageNames(listing)))
  {
    SortUnderPrefix(JoinPrefix(folder), ImageNames(listing));
  }

  /** How often the image list is tiled: one more than the floor of the end time over the list's total length. */
  function RepeatCount(n: nat, d: int, end: int): (r: int)
    requires n * d != 0
    ensures n * d > 0 ==> n * d * (r - 1) <= end < n * d * r
    ensures n * d < 0 ==> n * d * r < end <= n * d * (r - 1)
  {
    var b := n * d;
    var q := FloorDiv(end, b);
    assert b * (q + 1) == b * q + b;
    q + 1
  }

  /** `int(end_time / duration_per_image)`: how many clips are kept. */
  function SlotCount(end: int, d: int): (r: int)
    requires d != 0
    ensures d > 0 && end >= 0 ==> r == end / d
    ensures r == 0 <==> Abs(end) < Abs(d)
  {
    TruncDiv(end, d)
  }

  /** `min(audio_duration, end_time)` */
  function FinalDuration(audio: real, end: int): (r: real)
    ensures r <= audio && r <= end as real
    ensures r == audio || r == end as real
  {
    if (end as real) < audio then end as real else audio
  }

  /** One clip per path, all with the same duration, frame rate and fade-in. */
  function MakeClips(paths: seq<string>, d: int): (r: seq<Clip>)
    ensures |r| == |paths|
    ensures forall i :: 0 <= i < |paths| ==> r[i] == Clip(paths[i], d, FramesPerSecond, FadeInSeconds)
  {
    if |paths| == 0 then [] else [Clip(paths[0], d, FramesPerSecond, FadeInSeconds)] + MakeClips(paths[1..], d)
  }

  /** The emptiness test and the division that can fail, in the order the
      routine meets them; on success, the sorted paths. */
  function CheckedOrder(folder: string, listing: seq<string>, d: int): (r: Result<seq<string>>)
    ensures r == Err(NoImages) <==> ImageNames(listing) == []
    ensures r == Err(ZeroDivision) <==> ImageNames(listing) != [] && d == 0
    ensures r.Ok? ==> r.value == PlaybackOrder(folder, listing) && |r.value| > 0 && d != 0
  {
    var paths := ImagePaths(folder, listing);
    assert |paths| == |ImageNames(listing)|;
    if |paths| == 0 then Err(NoImages)
    else
      var order := PlaybackOrder(folder, listing);
      assert |order| == |multiset(order)| == |multiset(paths)| == |paths|;
      ProductZero(|order|, d);
      if |order| * d == 0 then Err(ZeroDivision)
      else Ok(order)
  }

  lemma ProductZero(n: nat, d: int)
    requires n > 0
    ensures n * d == 0 <==> d == 0
  {
    if d > 0 {
      MulPositive(n, d);
    } else if d < 0 {
      MulPositive(n, -d);
      assert n * (-d) == -(n * d);
    }
  }

  /** Tiles the clips `RepeatCount` times, keeps the first `slots` of them, and
      pairs them with the final duration. */
  function Assemble(order: seq<string>, audio: real, d: int, end: int, output: string, slots: int): (v: Video)
    requires |order| > 0 && d != 0
    ensures |v.clips| == SliceLength(|order| * (if RepeatCount(|order|, d, end) > 0 then RepeatCount(|order|, d, end) else 0), slots)
    ensures forall k :: 0 <= k < |v.clips| ==> v.clips[k] == Clip(order[k % |order|], d, FramesPerSecond, FadeInSeconds)
    ensures v.duration == FinalDuration(audio, end) && v.output == output
  {
    var tiled := Repeat(MakeClips(order, d), RepeatCount(|order|, d, end));
    Video(Slice(tiled, slots), FinalDuration(audio, end), output)
  }

  /** `create_slideshow(image_folder, audio_file, output_file, duration_per_image, end_time)`
      with the folder's listing and the audio file's duration as inputs. */
  function CreateSlideshow(folder: string, listing: seq<string>, audio: real, d: int, end: int, output: string): (r: Result<Video>)
    ensures r == Err(NoImages) <==> ImageNames(listing) == []
    ensures r == Err(ZeroDivision) <==> ImageNames(listing) != [] && d == 0
    ensures r.Ok? ==> r.value.output == output
  {
    match CheckedOrder(folder, listing, d)
    case Err(e) => Err(e)
    case Ok(order) => Ok(Assemble(order, audio, d, end, output, SlotCount(end, d)))
  }

  /** Total on-screen time of a clip sequence played back to back. */
  function VisualLength(clips: seq<Clip>): int {
    if |clips| == 0 then 0 else clips[0].duration + VisualLength(clips[1..])
  }

  lemma {:induction false} UniformVisualLength(clips: seq<Clip>, d: int)
    requires forall k :: 0 <= k < |clips| ==> clips[k].duration == d
    ensures VisualLength(clips) == |clips| * d
  {
    if |clips| > 0 {
      UniformVisualLength(clips[1..], d);
    }
  }

  /** With `n` images the tiled list lasts strictly longer than `end_time`. */
  lemma RepeatsOverCover(n: nat, d: int, end: int)
    requires n > 0 && d > 0
    ensures n * d * RepeatCount(n, d, end) > end
  {
    var b := n * d;
    assert b > 0 by { MulPositive(n, d); }
    var q := FloorDiv(end, b);
    assert b * (q + 1) == b * q + b;
  }

  lemma MulPositive(a: int, b: int)
    requires a > 0 && b > 0
    ensures a * b > 0
  {
  }

  /** The tiled list holds at least `end_time div d` clips, so the slice never runs short. */
  lemma TiledCoversSlots(n: nat, d: int, end: int)
    requires n > 0 && d > 0 && end >= 0
    ensures n * RepeatCount(n, d, end) >= end / d
  {
    var reps := RepeatCount(n, d, end);
    RepeatsOverCover(n, d, end);
    assert d * (n * reps) == n * d * reps;
    assert d * (end / d) <= end;
    MulLeftCancel(d, n * reps, end / d);
  }

  lemma MulLeftCancel(d: int, x: int, y: int)
    requires d > 0 && d * x > d * y
    ensures x > y
  {
    assert d * x - d * y == d * (x - y);
  }

  /** Every clip of the plan is sorted image `k mod n`, shown for `d` seconds. */
  lemma ClipsTileThePlaybackOrder(folder: string, listing: seq<string>, audio: real, d: int, end: int, output: string)
    requires ImageNames(listing) != [] && d != 0
    ensures CreateSlideshow(folder, listing, audio, d, end, output).Ok?
    ensures var v := CreateSlideshow(folder, listing, audio, d, end, output).value;
            var order := PlaybackOrder(folder, listing);
            |order| > 0 &&
            forall k :: 0 <= k < |v.clips| ==>
              v.clips[k] == Clip(order[k % |order|], d, FramesPerSecond, FadeInSeconds)
  {
  }

  /** For positive `d` and non-negative `end_time` exactly `end_time div d`
      clips are kept; the tiling never leaves the slice short. */
  lemma ClipCountIsSlotCount(folder: string, listing: seq<string>, audio: real, d: int, end: int, output: string)
    requires ImageNames(listing) != [] && d > 0 && end >= 0
    ensures CreateSlideshow(folder, listing, audio, d, end, output).Ok?
    ensures |CreateSlideshow(folder, listing, audio, d, end, output).value.clips| == end / d
  {
    var order := PlaybackOrder(folder, listing);
    assert CheckedOrder(folder, listing, d) == Ok(order);
    assert SlotCount(end, d) == end / d;
    AssembleKeepsEverySlot(order, audio, d, end, output);
  }

  lemma AssembleKeepsEverySlot(order: seq<string>, audio: real, d: int, end: int, output: string)
    requires |order| > 0 && d > 0 && end >= 0
    ensures |Assemble(order, audio, d, end, output, end / d).clips| == end / d
  {
    var reps := RepeatCount(|order|, d, end);
    TiledCoversSlots(|order|, d, end);
    assert reps > 0;
    var tiledLength := |order| * reps;
    assert SliceLength(tiledLength, end / d) == end / d;
  }

  /** A negative `end_time` (with positive `d`) leaves no clip at all. */
  lemma NegativeEndTimeGivesNoClips(folder: string, listing: seq<string>, audio: real, d: int, end: int, output: string)
    requires ImageNames(listing) != [] && d > 0 && end < 0
    ensures CreateSlideshow(folder, listing, audio, d, end, output).Ok?
    ensures RepeatCount(|PlaybackOrder(folder, listing)|, d, end) <= 0
    ensures CreateSlideshow(folder, listing, audio, d, end, output).value.clips == []
  {
    var order := PlaybackOrder(folder, listing);
    assert CheckedOrder(folder, listing, d) == Ok(order);
    AssembleBeforeZero(order, audio, d, end, output, SlotCount(end, d));
  }

  lemma AssembleBeforeZero(order: seq<string>, audio: real, d: int, end: int, output: string, slots: int)
    requires |order| > 0 && d > 0 && end < 0
    ensures RepeatCount(|order|, d, end) <= 0
    ensures Assemble(order, audio, d, end, output, slots).clips == []
  {
    var b := |order| * d;
    assert b > 0 by { MulPositive(|order|, d); }
    assert FloorDiv(end, b) < 0;
    assert RepeatCount(|order|, d, end) <= 0;
  }

  /** The planned clips last `d * (end_time div d)` seconds: never more than
      `end_time`, and short of it by less than one clip. */
  lemma PlannedVisualLength(folder: string, listing: seq<string>, audio: real, d: int, end: int, output: string)
    requires ImageNames(listing) != [] && d > 0 && end >= 0
    ensures CreateSlideshow(folder, listing, audio, d, end, output).Ok?
    ensures var v := CreateSlideshow(folder, listing, audio, d, end, output).value;
            VisualLength(v.clips) == d * (end / d) &&
            end - d < VisualLength(v.clips) <= end
  {
    var v := CreateSlideshow(folder, listing, audio, d, end, output).value;
    ClipCountIsSlotCount(folder, listing, audio, d, end, output);
    UniformVisualLength(v.clips, d);
  }

  /** The length both tracks are cut to is `min(audio_duration, end_time)`. */
  lemma DurationIsMinimum(folder: string, listing: seq<string>, audio: real, d: int, end: int, output: string)
    requires ImageNames(listing) != [] && d != 0
    ensures CreateSlideshow(folder, listing, audio, d, end, output).Ok?
    ensures var v := CreateSlideshow(folder, listing, audio, d, end, output).value;
            v.duration <= audio && v.duration <= end as real &&
            (v.duration == audio || v.duration == end as real)
  {
  }

  /** The three-image example: `a.png`, `b.jpg`, `c.jpeg` next to a text file,
      5 seconds each, 60 seconds wanted, 90 seconds of audio. The list is
      repeated 5 times, 12 clips are kept, and they cycle a, b, c. */
  lemma ThreeImagesExample(folder: string, listing: seq<string>, output: string)
    requires listing == ["c.jpeg", "notes.txt", "a.png", "b.jpg"]
    ensures RepeatCount(3, 5, 60) == 5
    ensures var r := CreateSlideshow(folder, listing, 90.0, 5, 60, output);
            r.Ok? && |r.value.clips| == 12 && r.value.duration == 60.0 &&
            r.value.clips[0].image == Join(folder, "a.png") &&
            r.value.clips[1].image == Join(folder, "b.jpg") &&
            r.value.clips[2].image == Join(folder, "c.jpeg") &&
            r.value.clips[11].image == Join(folder, "c.jpeg")
  {
    ExampleNames();
    ExampleOrder(folder);
    ClipCountIsSlotCount(folder, listing, 90.0, 5, 60, output);
    ClipsTileThePlaybackOrder(folder, listing, 90.0, 5, 60, output);
    DurationIsMinimum(folder, listing, 90.0, 5, 60, output);
    var order := PlaybackOrder(folder, listing);
    var v := CreateSlideshow(folder, listing, 90.0, 5, 60, output).value;
    assert v.clips[11] == Clip(order[11 % 3], 5, FramesPerSecond, FadeInSeconds);
  }

  lemma ExampleOrder(folder: string)
    ensures PlaybackOrder(folder, ["c.jpeg", "notes.txt", "a.png", "b.jpg"])
         == [Join(folder, "a.png"), Join(folder, "b.jpg"), Join(folder, "c.jpeg")]
  {
    ExampleNames();
    ExampleNamesSorted();
    ExampleJoined(JoinPrefix(folder));
    PlaybackOrderIsNameOrder(folder, ["c.jpeg", "notes.txt", "a.png", "b.jpg"]);
  }

  lemma ExampleNamesSorted()
    ensures Sort(["c.jpeg", "a.png", "b.jpg"]) == ["a.png", "b.jpg", "c.jpeg"]
  {
    var names := ["c.jpeg", "a.png", "b.jpg"];
    var sorted := ["a.png", "b.jpg", "c.jpeg"];
    assert multiset(names) == multiset(sorted);
    SortIsTheSortedPermutation(names, sorted);
  }

  lemma ExampleJoined(p: string)
    ensures Prefixed(p, ["a.png", "b.jpg", "c.jpeg"]) == [p + "a.png", p + "b.jpg", p + "c.jpeg"]
  {
  }

  lemma ExampleNames()
    ensures ImageNames(["c.jpeg", "notes.txt", "a.png", "b.jpg"]) == ["c.jpeg", "a.png", "b.jpg"]
  {
    var listing := ["c.jpeg", "notes.txt", "a.png", "b.jpg"];
    assert IsImageName("c.jpeg") && !IsImageName("notes.txt");
    assert IsImageName("a.png") && IsImageName("b.jpg");
    assert listing[1..] == ["notes.txt", "a.png", "b.jpg"];
    assert listing[1..][1..] == ["a.png", "b.jpg"];
    assert listing[1..][1..][1..] == ["b.jpg"];
    assert listing[1..][1..][1..][1..] == [];
  }

  // The slot count `int(end_time / duration_per_image)` rounds down, so the
  // clips can end before the length the tracks are cut to. Rounding up instead
  // makes the clips cover that length, which is what the repetition step is for.

  /** `-(-end_time // duration_per_image)`: the fewest clips of `d` seconds
      that last at least `end_time` seconds. */
  function CoveringSlotCount(end: int, d: int): (c: int)
    requires d != 0
    ensures d > 0 ==> end <= d * c < end + d
  {
    -FloorDiv(-end, d)
  }

  /** `CreateSlideshow` with the slot count rounded up. */
  function CreateCoveringSlideshow(folder: string, listing: seq<string>, audio: real, d: int, end: int, output: string): (r: Result<Video>)
    ensures r == Err(NoImages) <==> ImageNames(listing) == []
    ensures r == Err(ZeroDivision) <==> ImageNames(listing) != [] && d == 0
    ensures r.Ok? ==> r.value.output == output
  {
    match CheckedOrder(folder, listing, d)
    case Err(e) => Err(e)
    case Ok(order) => Ok(Assemble(order, audio, d, end, output, CoveringSlotCount(end, d)))
  }

  /** As written: when `d` does not divide `end_time` and the audio is at least
      `end_time` long, the clips stop before the cut. */
  lemma TruncatedPlanFallsShort(folder: string, listing: seq<string>, audio: real, d: int, end: int, output: string)
    requires ImageNames(listing) != [] && d > 0 && end >= 0 && end % d != 0
    requires audio >= end as real
    ensures CreateSlideshow(folder, listing, audio, d, end, output).Ok?
    ensures var v := CreateSlideshow(folder, listing, audio, d, end, output).value;
            (VisualLength(v.clips) as real) < v.duration
  {
    PlannedVisualLength(folder, listing, audio, d, end, output);
    DurationIsMinimum(folder, listing, audio, d, end, output);
    RoundedDownFallsShort(d, end);
  }

  lemma RoundedDownFallsShort(d: int, end: int)
    requires d > 0 && end % d != 0
    ensures d * (end / d) < end
  {
    assert d * (end / d) + end % d == end;
  }

  /** One image, 7 seconds each, 60 seconds wanted, 75 seconds of audio:
      8 clips make 56 seconds of picture for a 60-second video. */
  lemma TruncatedPlanExample()
    ensures var r := CreateSlideshow("img", ["a.png"], 75.0, 7, 60, "output1.mp4");
            r.Ok? && |r.value.clips| == 8 &&
            VisualLength(r.value.clips) == 56 && r.value.duration == 60.0
  {
    assert ImageNames(["a.png"]) == ["a.png"];
    PlannedVisualLength("img", ["a.png"], 75.0, 7, 60, "output1.mp4");
    ClipCountIsSlotCount("img", ["a.png"], 75.0, 7, 60, "output1.mp4");
  }

  lemma TiledCoversCoveringSlots(n: nat, d: int, end: int)
    requires n > 0 && d > 0 && end >= 0
    ensures n * RepeatCount(n, d, end) >= CoveringSlotCount(end, d)
  {
    var reps := RepeatCount(n, d, end);
    var c := CoveringSlotCount(end, d);
    RepeatsOverCover(n, d, end);
    assert d * (n * reps) == n * d * reps;
    assert d * (c - 1) == d * c - d;
    MulLeftCancel(d, n * reps, c - 1);
  }

  lemma AssembleKeepsEveryCoveringSlot(order: seq<string>, audio: real, d: int, end: int, output: string)
    requires |order| > 0 && d > 0 && end >= 0
    ensures |Assemble(order, audio, d, end, output, CoveringSlotCount(end, d)).clips| == CoveringSlotCount(end, d)
  {
    var reps := RepeatCount(|order|, d, end);
    TiledCoversCoveringSlots(|order|, d, end);
    assert reps > 0;
    var tiledLength := |order| * reps;
    assert SliceLength(tiledLength, CoveringSlotCount(end, d)) == CoveringSlotCount(end, d);
  }

  /** Corrected: the clips last at least as long as the cut, and overshoot
      `end_time` by less than one clip. */
  lemma CoveringPlanCoversDuration(folder: string, listing: seq<string>, audio: real, d: int, end: int, output: string)
    requires ImageNames(listing) != [] && d > 0 && end >= 0
    ensures CreateCoveringSlideshow(folder, listing, audio, d, end, output).Ok?
    ensures var v := CreateCoveringSlideshow(folder, listing, audio, d, end, output).value;
            v.duration <= VisualLength(v.clips) as real &&
            end <= VisualLength(v.clips) < end + d
  {
    var order := PlaybackOrder(folder, listing);
    assert CheckedOrder(folder, listing, d) == Ok(order);
    var v := Assemble(order, audio, d, end, output, CoveringSlotCount(end, d));
    assert CreateCoveringSlideshow(folder, listing, audio, d, end, output) == Ok(v);
    AssembleKeepsEveryCoveringSlot(order, audio, d, end, output);
    UniformVisualLength(v.clips, d);
    CoveringLength(|v.clips|, d, end);
    assert v.duration <= end as real;
  }

  lemma CoveringLength(n: int, d: int, end: int)
    requires d > 0 && n == CoveringSlotCount(end, d)
    ensures end <= n * d < end + d
  {
    assert n * d == d * n;
  }
}
