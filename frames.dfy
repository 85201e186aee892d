/**
 * Which frames of the video are sampled and when each sampled photo is said
 * to have been taken (app.py:140-155).
 */
module Frames {
  import opened Wrappers
  import opened Calendar

  /** How many frames are sampled from one video. */
  const FrameCount := 10

  /** Minutes between consecutive sampled photos. */
  const DriftMinutes := 5

  /**
   * `np.linspace(0, total_frames - 1, 10, dtype=int)`: ten evenly spaced
   * positions, each rounded down, the last one pinned to the end point.
   */
  function FrameIndices(totalFrames: int): (r: seq<int>)
    ensures |r| == FrameCount
  {
    seq(FrameCount, i requires 0 <= i < FrameCount =>
      if i == FrameCount - 1 then totalFrames - 1 else i * (totalFrames - 1) / (FrameCount - 1))
  }

  /** Each position but the last is i/9 of the way to the end frame, rounded down; the last is the end frame. */
  lemma FrameIndicesSpacing(totalFrames: int)
    ensures var r := FrameIndices(totalFrames);
      (forall i :: 0 <= i < FrameCount - 1 ==>
        r[i] * (FrameCount - 1) <= i * (totalFrames - 1) < (r[i] + 1) * (FrameCount - 1)) &&
      r[FrameCount - 1] == totalFrames - 1
  {
  }

  /**
   * For a video with at least one frame the positions start at 0, end at
   * the last frame, never decrease and stay within the video; with at least
   * ten frames no frame is sampled twice.
   */
  lemma FrameIndicesInRange(totalFrames: int)
    requires totalFrames > 0
    ensures var r := FrameIndices(totalFrames);
      r[0] == 0 && r[FrameCount - 1] == totalFrames - 1 &&
      (forall i :: 0 <= i < FrameCount ==> 0 <= r[i] <= totalFrames - 1) &&
      (forall i, j :: 0 <= i <= j < FrameCount ==> r[i] <= r[j]) &&
      (totalFrames >= FrameCount ==> forall i, j :: 0 <= i < j < FrameCount ==> r[i] < r[j])
  {
    var r := FrameIndices(totalFrames);
    var n := totalFrames - 1;
    forall i | 0 <= i < FrameCount
      ensures 0 <= r[i] <= n
      ensures i < FrameCount - 1 ==> r[i] <= r[i + 1]
      ensures i < FrameCount - 1 && totalFrames >= FrameCount ==> r[i] < r[i + 1]
    {
      if i < FrameCount - 1 {
        assert 0 <= i * n <= 9 * n by {
          MultiplyBounds(i, 9, n);
        }
        assert (i + 1) * n == i * n + n;
      }
    }
    forall i, j | 0 <= i <= j < FrameCount
      ensures r[i] <= r[j]
      ensures totalFrames >= FrameCount && i < j ==> r[i] < r[j]
    {
      StepsAccumulate(r, i, j, totalFrames >= FrameCount);
    }
  }

  lemma MultiplyBounds(a: int, b: int, n: int)
    requires 0 <= a <= b && 0 <= n
    ensures 0 <= a * n <= b * n
  {
  }

  /** Consecutive steps that never go down (or always go up) compose over any span. */
  lemma {:induction false} StepsAccumulate(r: seq<int>, i: int, j: int, strict: bool)
    requires 0 <= i <= j < |r|
    requires forall k :: 0 <= k < |r| - 1 ==> r[k] <= r[k + 1]
    requires strict ==> forall k :: 0 <= k < |r| - 1 ==> r[k] < r[k + 1]
    ensures r[i] <= r[j]
    ensures strict && i < j ==> r[i] < r[j]
    decreases j - i
  {
    if i < j {
      StepsAccumulate(r, i, j - 1, strict);
    }
  }

  /** `base_dt + timedelta(minutes=i*5)`: nothing where Python raises OverflowError. */
  function FrameTime(base: DateTime, i: nat): (r: Option<DateTime>)
    requires base.Valid()
    ensures r.Some? ==> r.value.Valid()
  {
    AddMinutes(base, DriftMinutes * i)
  }

  /**
   * Photo `i` is stamped exactly `5*i` minutes after the base time, whenever
   * that instant is representable.
   */
  lemma FrameTimeOffset(base: DateTime, i: nat)
    requires base.Valid()
    ensures FrameTime(base, i).Some? <==> Seconds(base) + 300 * i <= Seconds(LastInstant)
    ensures FrameTime(base, i).Some? ==>
      FrameTime(base, i).value.Valid() && Seconds(FrameTime(base, i).value) == Seconds(base) + 300 * i
  {
    AddMinutesSeconds(base, DriftMinutes * i);
  }

  /**
   * Later photos are stamped strictly later, exactly five minutes per
   * position apart; and once one stamp overflows, every later one does.
   */
  lemma FrameTimesIncrease(base: DateTime, i: nat, j: nat)
    requires base.Valid() && i < j
    ensures FrameTime(base, j).Some? ==> FrameTime(base, i).Some?
    ensures FrameTime(base, j).Some? ==>
      Seconds(FrameTime(base, j).value) - Seconds(FrameTime(base, i).value) == 300 * (j - i) > 0
  {
    FrameTimeOffset(base, i);
    FrameTimeOffset(base, j);
  }
}
