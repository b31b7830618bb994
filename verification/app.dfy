/**
  The two `main` loops: the older one in src/sigil.cpp (lines 40-82), which
  keeps a ring of the last hundred frame times, and the current one in
  src/main.cpp (lines 12-46). Both initialise, then per frame update and
  render until the window closes; they differ in the exit code an update
  failure produces.

  Whether each update and render succeeds is an input (their work is
  modelled by `Update.Tick` and `Render.Tick`); so is each frame's duration,
  which the program reads from a steady clock.
*/
module App {
  import opened Wrappers

  /** `frame_times.size()` in sigil.cpp:51. */
  const RingSize: nat := 100

  /** Slots skipped at each end of the ring when averaging (sigil.cpp:76). */
  const Offset: nat := 5

  /** One pass of the loop: update's verdict, render's verdict, the measured nanoseconds. */
  datatype Frame = Frame(updateOk: bool, renderOk: bool, nanos: nat)

  predicate FrameOk(f: Frame) {
    f.updateOk && f.renderOk
  }

  /** The first frame whose update or render failed, if any. */
  function FirstFailure(frames: seq<Frame>): (r: Option<nat>)
    ensures r.None? <==> forall i :: 0 <= i < |frames| ==> FrameOk(frames[i])
    ensures r.Some? ==> r.value < |frames| && !FrameOk(frames[r.value])
    ensures r.Some? ==> forall i :: 0 <= i < r.value ==> FrameOk(frames[i])
  {
    if |frames| == 0 then None
    else if !FrameOk(frames[0]) then Some(0)
    else
      var rest := FirstFailure(frames[1..]);
      assert forall i :: 1 <= i < |frames| ==> frames[i] == frames[1..][i - 1];
      match rest
      case None => None
      case Some(n) => Some(n + 1)
  }

  /** The measured durations, frame by frame. */
  function Durations(frames: seq<Frame>): (r: seq<nat>)
    ensures |r| == |frames|
    ensures forall i :: 0 <= i < |frames| ==> r[i] == frames[i].nanos
  {
    seq(|frames|, i requires 0 <= i < |frames| => frames[i].nanos)
  }

  /**
    What ring slot `k` holds after the durations `ds` were recorded in turn:
    the last duration whose position is `k` modulo the ring size, or the
    initial zero when none was.
  */
  function Latest(ds: seq<nat>, k: nat): nat
    decreases |ds|
  {
    if |ds| == 0 then 0
    else if (|ds| - 1) % RingSize == k then ds[|ds| - 1]
    else Latest(ds[..|ds| - 1], k)
  }

  lemma LatestAppend(ds: seq<nat>, x: nat, k: nat)
    ensures Latest(ds + [x], k) == if |ds| % RingSize == k then x else Latest(ds, k)
  {
    assert (ds + [x])[..|ds|] == ds;
  }

  /**
    The older `main` (sigil.cpp:40-82): 1 when initialisation fails, 2 when an
    update or a render fails, 0 once the window closes. After each good frame
    its duration is stored at the ring index, which then advances modulo the
    ring size, so every store is in bounds.
  */
  method LegacyMain(initOk: bool, frames: seq<Frame>) returns (code: nat, times: seq<nat>, index: nat)
    ensures code == 1 <==> !initOk
    ensures code == 2 <==> initOk && FirstFailure(frames).Some?
    ensures code == 0 <==> initOk && FirstFailure(frames).None?
    ensures |times| == RingSize && index < RingSize
    ensures code == 0 ==> index == |frames| % RingSize
    ensures code == 0 ==> forall k :: 0 <= k < RingSize ==> times[k] == Latest(Durations(frames), k)
    ensures code == 2 ==> index == FirstFailure(frames).value % RingSize
    ensures code == 2 ==> forall k :: 0 <= k < RingSize ==>
      times[k] == Latest(Durations(frames[..FirstFailure(frames).value]), k)
  {
    times := seq(RingSize, _ => 0);
    index := 0;
    if !initOk {
      return 1, times, index;
    }
    var i := 0;
    while i < |frames|
      invariant 0 <= i <= |frames|
      invariant forall j :: 0 <= j < i ==> FrameOk(frames[j])
      invariant |times| == RingSize && index == i % RingSize
      invariant forall k :: 0 <= k < RingSize ==> times[k] == Latest(Durations(frames[..i]), k)
    {
      if !frames[i].updateOk || !frames[i].renderOk {
        return 2, times, index;
      }
      assert Durations(frames[..i + 1]) == Durations(frames[..i]) + [frames[i].nanos];
      forall k | 0 <= k < RingSize {
        LatestAppend(Durations(frames[..i]), frames[i].nanos, k);
      }
      times := times[index := frames[i].nanos];
      index := (index + 1) % RingSize;
      i := i + 1;
    }
    assert frames[..i] == frames;
    code := 0;
  }

  function Sum(s: seq<nat>): nat {
    if |s| == 0 then 0 else s[0] + Sum(s[1..])
  }

  lemma {:induction false} SumBounds(s: seq<nat>, lo: nat, hi: nat)
    requires forall i :: 0 <= i < |s| ==> lo <= s[i] <= hi
    ensures |s| * lo <= Sum(s) <= |s| * hi
  {
    if |s| > 0 {
      var n := |s| - 1;
      SumBounds(s[1..], lo, hi);
      assert |s| * lo == lo + n * lo && |s| * hi == hi + n * hi by {
        MulSucc(n, lo);
        MulSucc(n, hi);
      }
    }
  }

  lemma MulSucc(n: nat, x: nat)
    ensures (n + 1) * x == x + n * x
  {
  }

  /**
    The integer mean frame time over the ring's middle ninety slots
    (sigil.cpp:75-78); its conversion to frames per second is floating point.
  */
  function AverageNanos(times: seq<nat>): (r: nat)
    requires |times| == RingSize
    ensures (RingSize - 2 * Offset) * r <= Sum(times[Offset..RingSize - Offset])
            < (RingSize - 2 * Offset) * (r + 1)
  {
    Sum(times[Offset..RingSize - Offset]) / (RingSize - 2 * Offset)
  }

  /** The mean lies between the smallest and the largest of the averaged slots. */
  lemma AverageWithinBounds(times: seq<nat>, lo: nat, hi: nat)
    requires |times| == RingSize
    requires forall k :: Offset <= k < RingSize - Offset ==> lo <= times[k] <= hi
    ensures lo <= AverageNanos(times) <= hi
  {
    var w := times[Offset..RingSize - Offset];
    SumBounds(w, lo, hi);
  }

  /** Slots outside the averaged window never influence the mean. */
  lemma AverageIgnoresEdges(a: seq<nat>, b: seq<nat>)
    requires |a| == RingSize && |b| == RingSize
    requires forall k :: Offset <= k < RingSize - Offset ==> a[k] == b[k]
    ensures AverageNanos(a) == AverageNanos(b)
  {
    assert a[Offset..RingSize - Offset] == b[Offset..RingSize - Offset];
  }

  /**
    The current `main` (main.cpp:12-46) once past initialisation: a failed
    update ends with 1, a failed render with 2, and a closed window with 0.
    Frames the rate limiter skips do no work and are not listed.
  */
  function ModernLoop(frames: seq<Frame>): (code: nat)
    ensures FirstFailure(frames).None? ==> code == 0
    ensures FirstFailure(frames).Some? && !frames[FirstFailure(frames).value].updateOk ==> code == 1
    ensures FirstFailure(frames).Some? && frames[FirstFailure(frames).value].updateOk ==> code == 2
  {
    if |frames| == 0 then 0
    else if !frames[0].updateOk then 1
    else if !frames[0].renderOk then 2
    else
      assert forall i :: 1 <= i < |frames| ==> frames[i] == frames[1..][i - 1];
      ModernLoop(frames[1..])
  }

  function ModernMain(initOk: bool, frames: seq<Frame>): (code: nat)
    ensures !initOk ==> code == 1
    ensures initOk && FirstFailure(frames).None? ==> code == 0
    ensures code == 2 <==> initOk && FirstFailure(frames).Some? && frames[FirstFailure(frames).value].updateOk
    ensures initOk && FirstFailure(frames).Some? && !frames[FirstFailure(frames).value].updateOk ==> code == 1
  {
    if !initOk then 1 else ModernLoop(frames)
  }

  /**
    The two mains agree on every run except one where an update fails: the
    older program exits with 2 there, the current one with 1.
  */
  lemma MainsDifferOnlyOnUpdateFailure(initOk: bool, frames: seq<Frame>)
    ensures var legacy := LegacyCode(initOk, frames);
      legacy != ModernMain(initOk, frames)
      <==> initOk && FirstFailure(frames).Some? && !frames[FirstFailure(frames).value].updateOk
  {
  }

  /** The exit code the older `main` returns, as `LegacyMain` computes it. */
  function LegacyCode(initOk: bool, frames: seq<Frame>): (code: nat)
    ensures code == 1 <==> !initOk
    ensures code == 2 <==> initOk && FirstFailure(frames).Some?
    ensures code == 0 <==> initOk && FirstFailure(frames).None?
  {
    if !initOk then 1 else if FirstFailure(frames).Some? then 2 else 0
  }

  /** `LegacyMain` returns the code `LegacyCode` names. */
  method LegacyMainCode(initOk: bool, frames: seq<Frame>) returns (code: nat)
    ensures code == LegacyCode(initOk, frames)
  {
    var times, index;
    code, times, index := LegacyMain(initOk, frames);
  }
}
