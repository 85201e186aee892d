/**
 * The session's list of generated photos: the generation loop that fills it
 * from one video (app.py:129-170) and the discard button's `remove_image`
 * (app.py:63-66).
 */
module Gallery {
  import opened Wrappers
  import opened Calendar
  import opened Exif
  import opened Frames
  import opened FileNames

  /** `f"img_{i}_{...}"`: the photo's position and the clock reading it was made at. */
  datatype ImageKey = ImageKey(position: nat, clock: int)

  /**
   * One entry of `generated_images`: its file name, the metadata record its
   * bytes carry, the video frame it shows, and its widget key.
   */
  datatype GeneratedImage = GeneratedImage(name: string, metadata: ExifDict, frame: int, key: ImageKey)

  /**
   * What one press of "Generate" works from: the keyword text, the video's
   * frame count, the chosen coordinates, the start date-time, the frame
   * positions the decoder can read, and the clock reading.
   */
  datatype Job = Job(seo: string, totalFrames: int, lat: real, lng: real, base: DateTime, readable: set<int>, clock: int)
  {
    predicate Valid() {
      base.Valid()
    }
  }

  /** A photo the loop makes: its position among the ten and the time it is stamped with. */
  datatype Shot = Shot(position: nat, time: DateTime)

  /** The photos made so far, and whether OverflowError ended the loop. */
  datatype Run = Run(shots: seq<Shot>, overflowed: bool)

  // ----- The loop over the ten positions, given what each position yields -----

  /**
   * The loop after it has handled positions 0 .. k-1, given for each position
   * whether `cap.read()` succeeds there and what its stamp is (nothing where
   * the addition overflows).
   */
  function RunUpTo(readable: seq<bool>, stamps: seq<Option<DateTime>>, k: nat): (r: Run)
    requires |readable| == |stamps| && k <= |readable|
    ensures |r.shots| <= k
    decreases k
  {
    if k == 0 then Run([], false)
    else
      var prev := RunUpTo(readable, stamps, k - 1);
      var i := k - 1;
      if prev.overflowed || !readable[i] then prev
      else match stamps[i]
        case None => Run(prev.shots, true)
        case Some(t) => Run(prev.shots + [Shot(i, t)], false)
  }

  /** A shot the loop can make: a position whose frame reads, stamped with that position's stamp. */
  predicate WellPlanned(readable: seq<bool>, stamps: seq<Option<DateTime>>, s: Shot)
    requires |readable| == |stamps|
  {
    s.position < |readable| && readable[s.position] && stamps[s.position] == Some(s.time)
  }

  predicate ShotsWellPlanned(readable: seq<bool>, stamps: seq<Option<DateTime>>, shots: seq<Shot>)
    requires |readable| == |stamps|
  {
    forall p :: 0 <= p < |shots| ==> WellPlanned(readable, stamps, shots[p])
  }

  /** Shots appear in the order of their positions. */
  predicate ShotsOrdered(shots: seq<Shot>) {
    forall p, q :: 0 <= p < q < |shots| ==> shots[p].position < shots[q].position
  }

  function Positions(shots: seq<Shot>): set<nat> {
    set p | 0 <= p < |shots| :: shots[p].position
  }

  function ReadablePositions(readable: seq<bool>, k: nat): set<nat>
    requires k <= |readable|
  {
    set i: nat | i < k && readable[i]
  }

  /** After positions 0 .. k-1 every shot is well planned and below k, and the shots are in position order. */
  lemma {:induction false} RunUpToWellPlanned(readable: seq<bool>, stamps: seq<Option<DateTime>>, k: nat)
    requires |readable| == |stamps| && k <= |readable|
    ensures var shots := RunUpTo(readable, stamps, k).shots;
      ShotsWellPlanned(readable, stamps, shots) &&
      (forall p :: 0 <= p < |shots| ==> shots[p].position < k) &&
      ShotsOrdered(shots)
    decreases k
  {
    if k > 0 {
      RunUpToWellPlanned(readable, stamps, k - 1);
    }
  }

  /** Without overflow, after positions 0 .. k-1 every readable position has its shot and no other has. */
  lemma {:induction false} RunUpToComplete(readable: seq<bool>, stamps: seq<Option<DateTime>>, k: nat)
    requires |readable| == |stamps| && k <= |readable| && !RunUpTo(readable, stamps, k).overflowed
    ensures Positions(RunUpTo(readable, stamps, k).shots) == ReadablePositions(readable, k)
    decreases k
  {
    if k > 0 {
      var i := k - 1;
      var prev := RunUpTo(readable, stamps, i);
      assert !prev.overflowed;
      RunUpToComplete(readable, stamps, i);
      if readable[i] {
        var s := Shot(i, stamps[i].value);
        assert RunUpTo(readable, stamps, k).shots == prev.shots + [s];
        PositionsAppend(prev.shots, s);
        assert ReadablePositions(readable, k) == ReadablePositions(readable, i) + {i};
      } else {
        assert ReadablePositions(readable, k) == ReadablePositions(readable, i);
      }
    }
  }

  lemma PositionsAppend(shots: seq<Shot>, s: Shot)
    ensures Positions(shots + [s]) == Positions(shots) + {s.position}
  {
    var all := shots + [s];
    forall x | x in Positions(all)
      ensures x in Positions(shots) + {s.position}
    {
      var p :| 0 <= p < |all| && all[p].position == x;
      if p < |shots| {
        assert shots[p].position == x;
      }
    }
    forall x | x in Positions(shots) + {s.position}
      ensures x in Positions(all)
    {
      if x == s.position {
        assert all[|shots|].position == x;
      } else {
        var p :| 0 <= p < |shots| && shots[p].position == x;
        assert all[p].position == x;
      }
    }
  }

  /** The loop overflows exactly when some readable position has no stamp. */
  lemma {:induction false} RunUpToOverflow(readable: seq<bool>, stamps: seq<Option<DateTime>>, k: nat)
    requires |readable| == |stamps| && k <= |readable|
    ensures RunUpTo(readable, stamps, k).overflowed <==> exists i :: 0 <= i < k && readable[i] && stamps[i].None?
    decreases k
  {
    if k > 0 {
      RunUpToOverflow(readable, stamps, k - 1);
    }
  }

  /** After OverflowError nothing more is appended. */
  lemma {:induction false} OverflowFinal(readable: seq<bool>, stamps: seq<Option<DateTime>>, k: nat)
    requires |readable| == |stamps| && k <= |readable| && RunUpTo(readable, stamps, k).overflowed
    ensures RunUpTo(readable, stamps, |readable|) == RunUpTo(readable, stamps, k)
    decreases |readable| - k
  {
    if k < |readable| {
      OverflowFinal(readable, stamps, k + 1);
    }
  }

  /**
   * When the loop overflows, it does so at the first readable position `f`
   * without a stamp; the shots are then exactly those of the readable
   * positions before `f`.
   */
  lemma {:induction false} OverflowPrefix(readable: seq<bool>, stamps: seq<Option<DateTime>>, k: nat)
    requires |readable| == |stamps| && k <= |readable| && RunUpTo(readable, stamps, k).overflowed
    ensures exists f ::
      0 <= f < k && readable[f] && stamps[f].None? &&
      (forall i :: 0 <= i < f && readable[i] ==> stamps[i].Some?) &&
      Positions(RunUpTo(readable, stamps, k).shots) == ReadablePositions(readable, f)
    decreases k
  {
    var prev := RunUpTo(readable, stamps, k - 1);
    if prev.overflowed {
      OverflowPrefix(readable, stamps, k - 1);
    } else {
      var f := k - 1;
      RunUpToOverflow(readable, stamps, f);
      RunUpToComplete(readable, stamps, f);
      assert RunUpTo(readable, stamps, k).shots == prev.shots;
    }
  }

  /** Shots with strictly increasing positions below `n` number at most `n`. */
  lemma ShotsOrderedLength(shots: seq<Shot>, n: nat)
    requires ShotsOrdered(shots)
    requires forall p :: 0 <= p < |shots| ==> shots[p].position < n
    ensures |shots| <= n
  {
    if |shots| > 0 {
      PositionAtLeast(shots, |shots| - 1);
    }
  }

  lemma {:induction false} PositionAtLeast(shots: seq<Shot>, p: nat)
    requires ShotsOrdered(shots) && p < |shots|
    ensures shots[p].position >= p
    decreases p
  {
    if p > 0 {
      PositionAtLeast(shots, p - 1);
    }
  }

  // ----- What one video yields -----

  /** Per position, whether the frame sampled there reads. */
  function Readability(job: Job): (r: seq<bool>)
    ensures |r| == FrameCount
  {
    seq(FrameCount, i requires 0 <= i < FrameCount => FrameIndices(job.totalFrames)[i] in job.readable)
  }

  /** Per position, `base_dt + timedelta(minutes=i*5)`. */
  function Stamps(job: Job): (r: seq<Option<DateTime>>)
    requires job.Valid()
    ensures |r| == FrameCount
    ensures forall i :: 0 <= i < FrameCount && r[i].Some? ==> r[i].value.Valid()
  {
    seq(FrameCount, i requires 0 <= i < FrameCount => FrameTime(job.base, i))
  }

  /** What a press of "Generate" does: clear the list, then run the loop when the video has frames. */
  function GenerationRun(job: Job): (r: Run)
    requires job.Valid()
    ensures |r.shots| <= FrameCount
    ensures job.totalFrames <= 0 ==> r == Run([], false)
  {
    var readable := Readability(job);
    if job.totalFrames > 0 then RunUpTo(readable, Stamps(job), |readable|) else Run([], false)
  }

  /** The entry appended for a shot. */
  function Photo(job: Job, s: Shot): GeneratedImage
    requires s.position < FrameCount && s.time.Valid()
  {
    GeneratedImage(FileName(job.seo, s.position), ExifFor(Some(job.lat), Some(job.lng), Some(s.time)),
                   FrameIndices(job.totalFrames)[s.position], ImageKey(s.position, job.clock))
  }

  predicate JobShots(job: Job, shots: seq<Shot>)
    requires job.Valid()
  {
    ShotsWellPlanned(Readability(job), Stamps(job), shots)
  }

  /** The entries appended for a list of shots, in order. */
  function Photos(job: Job, shots: seq<Shot>): seq<GeneratedImage>
    requires job.Valid() && JobShots(job, shots)
  {
    seq(|shots|, p requires 0 <= p < |shots| => Photo(job, shots[p]))
  }

  /**
   * What a reader of one entry finds: the frame it shows is one the decoder
   * read, and its record carries the chosen coordinates and a stamp exactly
   * five minutes per position after the start.
   */
  predicate Faithful(job: Job, img: GeneratedImage)
    requires job.Valid()
  {
    var m := ReadMetadata(img.metadata);
    img.frame in job.readable &&
    m.taken.Some? && Seconds(m.taken.value) == Seconds(job.base) + 300 * img.key.position &&
    m.position.Some? && Approximates(m.position.value.0, job.lat) && Approximates(m.position.value.1, job.lng)
  }

  /** The photo of a well-planned shot is faithful, keyed and named by its position, and stamped with its time. */
  lemma PhotoContents(job: Job, s: Shot)
    requires job.Valid() && WellPlanned(Readability(job), Stamps(job), s)
    ensures var img := Photo(job, s);
      Faithful(job, img) && img.key.position == s.position && img.name == FileName(job.seo, s.position) &&
      ReadMetadata(img.metadata).taken == Some(s.time)
  {
    ReadBack(Some(job.lat), Some(job.lng), Some(s.time));
    FrameTimeOffset(job.base, s.position);
  }

  /** Entries appear in the order of their positions in the video. */
  predicate Ordered(images: seq<GeneratedImage>) {
    forall p, q :: 0 <= p < q < |images| ==> images[p].key.position < images[q].key.position
  }

  /** A position has no stamp exactly when five minutes per position after the start is past the last instant. */
  lemma StampsOverflow(job: Job)
    requires job.Valid()
    ensures forall i :: 0 <= i < FrameCount ==>
      (Stamps(job)[i].None? <==> Seconds(job.base) + 300 * i > Seconds(LastInstant))
  {
    forall i | 0 <= i < FrameCount
      ensures Stamps(job)[i].None? <==> Seconds(job.base) + 300 * i > Seconds(LastInstant)
    {
      FrameTimeOffset(job.base, i);
    }
  }

  /**
   * The shots of one press of "Generate": well planned, in position order, at
   * most ten. OverflowError happens exactly when a readable position's stamp
   * is past the last representable instant, and without it every readable
   * position has its shot.
   */
  lemma GenerationShots(job: Job)
    requires job.Valid()
    ensures var run := GenerationRun(job);
      JobShots(job, run.shots) && ShotsOrdered(run.shots) && |run.shots| <= FrameCount &&
      (run.overflowed <==>
        job.totalFrames > 0 &&
        exists i :: 0 <= i < FrameCount && Readability(job)[i] && Seconds(job.base) + 300 * i > Seconds(LastInstant)) &&
      (job.totalFrames > 0 && !run.overflowed ==> Positions(run.shots) == ReadablePositions(Readability(job), FrameCount))
  {
    var run := GenerationRun(job);
    var readable, stamps := Readability(job), Stamps(job);
    if job.totalFrames > 0 {
      RunUpToWellPlanned(readable, stamps, |readable|);
      RunUpToOverflow(readable, stamps, |readable|);
      if !run.overflowed {
        RunUpToComplete(readable, stamps, |readable|);
      }
      StampsOverflow(job);
    }
    ShotsOrderedLength(run.shots, FrameCount);
  }

  /**
   * One turn of the loop at position `i`: an unreadable frame changes
   * nothing; a readable one either ends the loop with OverflowError, which
   * is then final, or appends its shot and that shot's photo.
   */
  lemma GenerationStep(job: Job, i: nat, shots: seq<Shot>)
    requires job.Valid() && i < FrameCount
    requires RunUpTo(Readability(job), Stamps(job), i) == Run(shots, false) && JobShots(job, shots)
    ensures var readable, stamps := Readability(job), Stamps(job);
      var next := RunUpTo(readable, stamps, i + 1);
      readable[i] == (FrameIndices(job.totalFrames)[i] in job.readable) &&
      stamps[i] == FrameTime(job.base, i) &&
      (!readable[i] ==> next == Run(shots, false)) &&
      (readable[i] && stamps[i].None? ==> RunUpTo(readable, stamps, |readable|) == Run(shots, true)) &&
      (readable[i] && stamps[i].Some? ==>
        var shot := Shot(i, stamps[i].value);
        next == Run(shots + [shot], false) && JobShots(job, shots + [shot]) &&
        Photos(job, shots + [shot]) == Photos(job, shots) + [Photo(job, shot)])
  {
    var readable, stamps := Readability(job), Stamps(job);
    RunUpToWellPlanned(readable, stamps, i + 1);
    if readable[i] {
      if stamps[i].None? {
        OverflowFinal(readable, stamps, i + 1);
      } else {
        PhotosAppend(job, shots, Shot(i, stamps[i].value));
      }
    }
  }

  /**
   * When OverflowError ends the loop, it is raised at the first readable
   * position whose stamp is past the last instant, and the photos already
   * appended are exactly those of the readable positions before it.
   */
  lemma GenerationOverflow(job: Job)
    requires job.Valid()
    ensures var readable := Readability(job);
      GenerationRun(job).overflowed ==>
      exists f ::
        0 <= f < FrameCount && readable[f] &&
        Seconds(job.base) + 300 * f > Seconds(LastInstant) &&
        (forall i :: 0 <= i < f && readable[i] ==> Seconds(job.base) + 300 * i <= Seconds(LastInstant)) &&
        Positions(GenerationRun(job).shots) == ReadablePositions(readable, f)
  {
    if GenerationRun(job).overflowed {
      var readable, stamps := Readability(job), Stamps(job);
      OverflowPrefix(readable, stamps, |readable|);
      StampsOverflow(job);
    }
  }

  /** Appending a shot appends its photo. */
  lemma PhotosAppend(job: Job, shots: seq<Shot>, s: Shot)
    requires job.Valid() && JobShots(job, shots) && WellPlanned(Readability(job), Stamps(job), s)
    requires JobShots(job, shots + [s])
    ensures Photos(job, shots + [s]) == Photos(job, shots) + [Photo(job, s)]
  {
  }

  /** Every photo made from well-planned shots is faithful. */
  lemma PhotosFaithful(job: Job, shots: seq<Shot>)
    requires job.Valid() && JobShots(job, shots)
    ensures forall p :: 0 <= p < |shots| ==> Faithful(job, Photos(job, shots)[p])
  {
    forall p | 0 <= p < |shots|
      ensures Faithful(job, Photos(job, shots)[p])
    {
      PhotoContents(job, shots[p]);
    }
  }

  /** Photos made from ordered shots are ordered and never share a name. */
  lemma PhotosDistinct(job: Job, shots: seq<Shot>)
    requires job.Valid() && JobShots(job, shots) && ShotsOrdered(shots)
    ensures var images := Photos(job, shots);
      Ordered(images) && forall p, q :: 0 <= p < q < |images| ==> images[p].name != images[q].name
  {
    var images := Photos(job, shots);
    forall p, q | 0 <= p < q < |images|
      ensures images[p].key.position < images[q].key.position && images[p].name != images[q].name
    {
      FileNamesDistinct(job.seo, shots[p].position, shots[q].position);
    }
  }

  /**
   * What a press of "Generate" leaves in the gallery: at most ten photos in
   * video order, with pairwise distinct names, each faithful to the job.
   */
  lemma GenerationGallery(job: Job)
    requires job.Valid()
    ensures var run := GenerationRun(job);
      JobShots(job, run.shots) &&
      var images := Photos(job, run.shots);
      |images| <= FrameCount && Ordered(images) &&
      (forall p, q :: 0 <= p < q < |images| ==> images[p].name != images[q].name) &&
      (forall p :: 0 <= p < |images| ==> Faithful(job, images[p]))
  {
    var run := GenerationRun(job);
    GenerationShots(job);
    PhotosFaithful(job, run.shots);
    PhotosDistinct(job, run.shots);
  }

  // ----- Removing one photo -----

  /** `del images[index]` guarded by `0 <= index < len(images)`. */
  function RemoveAt<T>(s: seq<T>, index: int): (r: seq<T>)
    ensures 0 <= index < |s| ==> |r| == |s| - 1
    ensures 0 <= index < |s| ==> forall k :: 0 <= k < index ==> r[k] == s[k]
    ensures 0 <= index < |s| ==> forall k :: index <= k < |r| ==> r[k] == s[k + 1]
    ensures !(0 <= index < |s|) ==> r == s
  {
    if 0 <= index < |s| then s[..index] + s[index + 1..] else s
  }

  /** Removing one entry removes exactly that entry: the multiset loses one copy of it. */
  lemma RemoveAtMultiset<T>(s: seq<T>, index: int)
    requires 0 <= index < |s|
    ensures multiset(RemoveAt(s, index)) + multiset{s[index]} == multiset(s)
  {
    assert s == s[..index] + [s[index]] + s[index + 1..];
  }

  /** Discarding a photo keeps the others in their order. */
  lemma RemoveAtKeepsOrder(images: seq<GeneratedImage>, index: int)
    requires Ordered(images)
    ensures Ordered(RemoveAt(images, index))
  {
    var r := RemoveAt(images, index);
    if 0 <= index < |images| {
      forall p, q | 0 <= p < q < |r|
        ensures r[p].key.position < r[q].key.position
      {
        var p' := if p < index then p else p + 1;
        var q' := if q < index then q else q + 1;
        assert r[p] == images[p'] && r[q] == images[q'];
      }
    }
  }

  /** `st.session_state`, as far as the gallery is concerned. */
  class Session {
    var generatedImages: seq<GeneratedImage>

    /** `st.session_state.generated_images = []` on first load. */
    constructor ()
      ensures generatedImages == []
    {
      generatedImages := [];
    }

    /** `remove_image(index)`: drop one entry when the index is in range, otherwise leave the list alone. */
    method RemoveImage(index: int)
      modifies this
      ensures generatedImages == RemoveAt(old(generatedImages), index)
    {
      if 0 <= index < |generatedImages| {
        generatedImages := generatedImages[..index] + generatedImages[index + 1..];
      }
    }

    /**
     * The "Generate & Preview Images" branch: clear the list, then for each of
     * the ten sampled positions whose frame reads, stamp it, name it and append
     * it. Returns true where Python's OverflowError would end the loop.
     */
    method Generate(job: Job) returns (overflowed: bool)
      requires job.Valid()
      modifies this
      ensures var run := GenerationRun(job);
        JobShots(job, run.shots) && generatedImages == Photos(job, run.shots) && overflowed == run.overflowed
    {
      generatedImages := [];
      overflowed := false;
      if job.totalFrames > 0 {
        var frameIndices := FrameIndices(job.totalFrames);
        var i := 0;
        ghost var shots: seq<Shot> := [];
        while i < FrameCount
          invariant 0 <= i <= FrameCount
          invariant RunUpTo(Readability(job), Stamps(job), i) == Run(shots, false)
          invariant JobShots(job, shots)
          invariant generatedImages == Photos(job, shots)
        {
          GenerationStep(job, i, shots);
          var idx := frameIndices[i];
          if idx in job.readable {
            var photoTime := FrameTime(job.base, i);
            if photoTime.None? {
              overflowed := true;
              return;
            }
            var metadata := BuildExifDict(Some(job.lat), Some(job.lng), photoTime);
            var name := FileName(job.seo, i);
            generatedImages := generatedImages + [GeneratedImage(name, metadata, idx, ImageKey(i, job.clock))];
            shots := shots + [Shot(i, photoTime.value)];
          }
          i := i + 1;
        }
      }
    }
  }
}
