// FrameGate: drops frames above a target rate, counting to a due time that keeps its phase.
module FrameGates {
  import opened Machine

  const TOLERANCE_US: int := 500
  const SECOND_US: int := 1_000_000

  // lastUs holds the last admitted timestamp plus one, 0 standing for none.
  datatype Gate = Gate(lastUs: Word64, nextDueUs: Word64)

  const FRESH := Gate(0, 0)

  function Gap(fps: Word32): (gap: nat)
    requires fps > 0
    ensures gap <= SECOND_US
  {
    SECOND_US / fps
  }

  predicate HasReference(g: Gate, t: Word64)
  {
    g.lastUs != 0 && t > g.lastUs - 1
  }

  predicate Admits(g: Gate, fps: Word32, t: Word64)
  {
    fps == 0 || !HasReference(g, t) || U64(t + TOLERANCE_US) >= g.nextDueUs
  }

  function After(g: Gate, fps: Word32, t: Word64): Gate
  {
    if fps == 0 || !Admits(g, fps, t) then g
    else
      var gap := Gap(fps);
      var carried := U64(g.nextDueUs + gap);
      var due := if !HasReference(g, t) || carried < t then U64(t + gap) else carried;
      Gate(U64(t + 1), due)
  }

  class FrameGate {
    var lastUs: Word64
    var nextDueUs: Word64

    constructor ()
      ensures State() == FRESH
    {
      lastUs, nextDueUs := 0, 0;
    }

    ghost function State(): Gate
      reads this
    {
      Gate(lastUs, nextDueUs)
    }

    method Reset()
      modifies this
      ensures State() == FRESH
    {
      lastUs := 0;
      nextDueUs := 0;
    }

    method Admit(fps: Word32, timestampUs: Word64) returns (admitted: bool)
      modifies this
      ensures admitted == Admits(old(State()), fps, timestampUs)
      ensures State() == After(old(State()), fps, timestampUs)
    {
      if fps == 0 {
        return true;
      }
      var minGapUs := SECOND_US / fps;
      var stamped := lastUs;
      var haveReference := stamped != 0 && timestampUs > stamped - 1;
      if haveReference {
        var dueUs := nextDueUs;
        if U64(timestampUs + TOLERANCE_US) < dueUs {
          return false;
        }
        var carried := U64(dueUs + minGapUs);
        nextDueUs := if carried < timestampUs then U64(timestampUs + minGapUs) else carried;
      } else {
        nextDueUs := U64(timestampUs + minGapUs);
      }
      lastUs := U64(timestampUs + 1);
      return true;
    }
  }

  // ---------------------------------------------------------------------------------------------
  // Runs of a new gate at one rate, and the frames it lets through.

  function Run(fps: Word32, times: seq<Word64>): Gate
  {
    if times == [] then FRESH else After(Run(fps, times[..|times| - 1]), fps, times[|times| - 1])
  }

  function Kept(fps: Word32, times: seq<Word64>): (kept: seq<Word64>)
    ensures |kept| <= |times|
  {
    if times == [] then []
    else
      var front, t := times[..|times| - 1], times[|times| - 1];
      Kept(fps, front) + (if Admits(Run(fps, front), fps, t) then [t] else [])
  }

  lemma OneMoreFrame(fps: Word32, front: seq<Word64>, t: Word64)
    ensures Run(fps, front + [t]) == After(Run(fps, front), fps, t)
    ensures Kept(fps, front + [t]) == Kept(fps, front) + (if Admits(Run(fps, front), fps, t) then [t] else [])
  {
    hide Admits, After;
    assert (front + [t])[..|front|] == front;
  }

  lemma NoFrames(fps: Word32)
    ensures Run(fps, []) == FRESH && Kept(fps, []) == []
  {
  }

  // Strictly rising timestamps, far enough from the end of their range for sums not to wrap.
  ghost predicate Rising(times: seq<Word64>)
  {
    && (forall i, j | 0 <= i < j < |times| :: times[i] < times[j])
    && (forall i | 0 <= i < |times| :: times[i] < TWO63)
  }

  lemma RisingPrefix(times: seq<Word64>)
    requires times != [] && Rising(times)
    ensures Rising(times[..|times| - 1])
  {
  }

  // Between frames: the due time lies at least one gap per frame kept behind every one of them, one
  // more behind the first, and never more than a gap and the tolerance behind the last.
  ghost predicate Paced(g: Gate, gap: nat, kept: seq<Word64>)
  {
    if kept == [] then g == FRESH
    else
      var n, last := |kept|, kept[|kept| - 1];
      && g.lastUs == last + 1 && last < TWO63
      && g.nextDueUs >= kept[0] + n * gap
      && (forall i | 0 <= i < n :: g.nextDueUs >= kept[i] + (n - 1 - i) * gap)
      && g.nextDueUs <= last + gap + TOLERANCE_US
  }

  // The rate bound on the frames kept so far.
  ghost predicate RateBounded(gap: nat, kept: seq<Word64>)
  {
    && (forall i, j | 0 <= i < j < |kept| :: (j - i - 1) * gap <= kept[j] - kept[i] + TOLERANCE_US)
    && (forall j | 0 < j < |kept| :: j * gap <= kept[j] - kept[0] + TOLERANCE_US)
  }

  lemma NotWrapped(n: nat)
    requires n < TWO64
    ensures U64(n) == n
  {
  }

  // One frame in plain arithmetic: nothing wraps while the gate is paced.
  lemma NothingWraps(g: Gate, fps: Word32, t: Word64)
    requires fps > 0 && t < TWO63 && g.nextDueUs <= TWO63 + SECOND_US + TOLERANCE_US
    ensures g == FRESH ==> Admits(g, fps, t) && After(g, fps, t) == Gate(t + 1, t + Gap(fps))
    ensures g.lastUs > 0 && t >= g.lastUs ==>
              && Admits(g, fps, t) == (t + TOLERANCE_US >= g.nextDueUs)
              && (Admits(g, fps, t) ==>
                  var carried := g.nextDueUs + Gap(fps);
                  After(g, fps, t) == Gate(t + 1, if carried < t then t + Gap(fps) else carried))
    ensures !Admits(g, fps, t) ==> After(g, fps, t) == g
  {
    hide Gap, U64;
    NotWrapped(t + TOLERANCE_US);
    NotWrapped(t + Gap(fps));
    NotWrapped(g.nextDueUs + Gap(fps));
    NotWrapped(t + 1);
  }

  lemma FirstIsPaced(g: Gate, gap: nat, t: Word64)
    requires Paced(g, gap, []) && t < TWO63 && t + gap < TWO64
    ensures g == FRESH && Paced(Gate(t + 1, t + gap), gap, [] + [t]) && RateBounded(gap, [] + [t])
  {
    assert 1 * gap == gap && 0 * gap == 0;
  }

  lemma PacedGoesOn(g: Gate, after: Gate, gap: nat, kept: seq<Word64>, t: Word64)
    requires kept != [] && Paced(g, gap, kept) && kept[|kept| - 1] < t < TWO63 && g.nextDueUs <= t + TOLERANCE_US
    requires after.lastUs == t + 1 && g.nextDueUs + gap <= after.nextDueUs <= t + gap + TOLERANCE_US
    requires after.nextDueUs >= t
    ensures Paced(after, gap, kept + [t])
  {
    var n, all := |kept|, kept + [t];
    assert all[0] == kept[0] && all[n] == t;
    assert (n + 1) * gap == n * gap + gap;
    forall i | 0 <= i < n + 1 ensures after.nextDueUs >= all[i] + (n + 1 - 1 - i) * gap {
      if i < n {
        assert all[i] == kept[i] && (n - i) * gap == (n - 1 - i) * gap + gap;
      } else {
        assert (n - i) * gap == 0;
      }
    }
  }

  lemma BoundGoesOn(g: Gate, gap: nat, kept: seq<Word64>, t: Word64)
    requires kept != [] && Paced(g, gap, kept) && RateBounded(gap, kept) && g.nextDueUs <= t + TOLERANCE_US
    ensures RateBounded(gap, kept + [t])
  {
    var n, all := |kept|, kept + [t];
    forall i, j | 0 <= i < j < n + 1 ensures (j - i - 1) * gap <= all[j] - all[i] + TOLERANCE_US {
      assert all[i] == kept[i];
      if j < n {
        assert all[j] == kept[j];
      } else {
        assert g.nextDueUs >= kept[i] + (n - 1 - i) * gap;
      }
    }
    forall j | 0 < j < n + 1 ensures j * gap <= all[j] - all[0] + TOLERANCE_US {
      assert all[0] == kept[0];
      if j < n { assert all[j] == kept[j]; }
    }
  }

  lemma KeepingStaysPaced(g: Gate, fps: Word32, kept: seq<Word64>, t: Word64)
    requires fps > 0 && Paced(g, Gap(fps), kept) && t < TWO63
    requires kept != [] ==> kept[|kept| - 1] < t
    requires Admits(g, fps, t)
    ensures Paced(After(g, fps, t), Gap(fps), kept + [t])
    ensures RateBounded(Gap(fps), kept) ==> RateBounded(Gap(fps), kept + [t])
  {
    NothingWraps(g, fps, t);
    hide Admits, After, Gap, Paced, RateBounded;
    var gap, after := Gap(fps), After(g, fps, t);
    if kept == [] {
      FirstIsPaced(g, gap, t);
    } else {
      PacedGoesOn(g, after, gap, kept, t);
      if RateBounded(gap, kept) { BoundGoesOn(g, gap, kept, t); }
    }
  }

  lemma {:induction false} RunIsPaced(fps: Word32, times: seq<Word64>)
    requires fps > 0 && Rising(times)
    ensures Paced(Run(fps, times), Gap(fps), Kept(fps, times))
    ensures RateBounded(Gap(fps), Kept(fps, times))
    ensures Kept(fps, times) != [] ==> Kept(fps, times)[|Kept(fps, times)| - 1] <= times[|times| - 1]
    ensures times != [] ==> Kept(fps, times) != []
  {
    hide Admits, After, Paced, RateBounded, Run, Kept;
    NoFrames(fps);
    if times == [] {
      Nothing(Gap(fps));
    } else {
      var front, t := times[..|times| - 1], times[|times| - 1];
      assert times == front + [t];
      OneMoreFrame(fps, front, t);
      RisingPrefix(times);
      RunIsPaced(fps, front);
      RisingAtEnd(times);
      if Admits(Run(fps, front), fps, t) {
        KeepingStaysPaced(Run(fps, front), fps, Kept(fps, front), t);
      } else {
        DroppingChangesNothing(Run(fps, front), fps, t);
        assert Kept(fps, times) == Kept(fps, front);
        FirstIsKept(Run(fps, front), fps, t, Kept(fps, front));
      }
    }
  }

  lemma Nothing(gap: nat)
    ensures Paced(FRESH, gap, []) && RateBounded(gap, [])
  {
  }

  lemma DroppingChangesNothing(g: Gate, fps: Word32, t: Word64)
    requires !Admits(g, fps, t)
    ensures After(g, fps, t) == g
  {
  }

  lemma FirstIsKept(g: Gate, fps: Word32, t: Word64, kept: seq<Word64>)
    requires fps > 0 && Paced(g, Gap(fps), kept) && !Admits(g, fps, t)
    ensures kept != []
  {
  }

  // N consecutive frames kept over a time T obey (N - 2) * gap <= T + tolerance, and
  // (N - 1) * gap <= T + tolerance when the first frame of the run is among them.
  lemma RateBound(fps: Word32, times: seq<Word64>, i: nat, j: nat)
    requires fps > 0 && Rising(times)
    requires i < j < |Kept(fps, times)|
    ensures var kept := Kept(fps, times);
            var n, span := j - i + 1, kept[j] as int - kept[i] as int;
            && (n - 2) * Gap(fps) <= span + TOLERANCE_US
            && (i == 0 ==> (n - 1) * Gap(fps) <= span + TOLERANCE_US)
  {
    RunIsPaced(fps, times);
  }

  // The looser of the two bounds cannot be improved: late by a whole gap, the gate lets the next
  // frame through at once.
  lemma TwoFramesOneMicrosecondApart()
    ensures Kept(30, [0, 66_666, 66_667]) == [0, 66_666, 66_667]
    ensures 1 * Gap(30) > 1 + TOLERANCE_US
  {
    var a, b, c: seq<Word64> := [0], [0, 66_666], [0, 66_666, 66_667];
    assert a[..0] == [] && b[..1] == a && c[..2] == b;
    assert Run(30, a) == Gate(1, 33_333);
    assert Run(30, b) == Gate(66_667, 66_666);
    assert Kept(30, a) == a;
    assert Kept(30, b) == b;
  }

  // Rising timestamps are needed: a frame no later than the last one kept always passes ...
  lemma NotLaterAlwaysPasses(g: Gate, fps: Word32, t: Word64)
    requires g.lastUs > 0 && t <= g.lastUs - 1
    ensures Admits(g, fps, t)
    ensures fps > 0 ==> After(g, fps, t) == After(FRESH, fps, t) == Gate(U64(t + 1), U64(t + 1_000_000 / fps))
  {
  }

  // Without a rate every frame passes, and leaves no trace.
  lemma NoRateNoGate(g: Gate, t: Word64)
    ensures Admits(g, 0, t) && After(g, 0, t) == g
  {
  }

  // The tolerance is half a millisecond.
  lemma ToleranceIsHalfAMillisecond()
    ensures Kept(30, [0, 32_833]) == [0, 32_833] && Kept(30, [0, 32_832]) == [0]
  {
    OneMoreFrame(30, [], 0);
    OneMoreFrame(30, [0], 32_833);
    OneMoreFrame(30, [0], 32_832);
    NoFrames(30);
    hide Kept, Run;
    assert [] + [0 as Word64] == [0] && [0 as Word64] + [32_833] == [0, 32_833];
    assert [0 as Word64] + [32_832] == [0, 32_832];
  }

  // ... so a timestamp that is repeated passes every time, however low the rate ...
  lemma {:induction false} RepeatedTimeIsKept(fps: Word32, times: seq<Word64>, t: Word64)
    requires fps > 0 && t < TWO64 - 1 && forall i | 0 <= i < |times| :: times[i] == t
    ensures Kept(fps, times) == times
    ensures times != [] ==> Run(fps, times).lastUs == t + 1
  {
    if times != [] {
      hide Admits, After, Gap;
      var front := times[..|times| - 1];
      RepeatedTimeIsKept(fps, front, t);
      if front != [] { assert front[0] == t; }
      SameTimeAgain(Run(fps, front), fps, t);
    }
  }

  lemma SameTimeAgain(g: Gate, fps: Word32, t: Word64)
    requires fps > 0 && t < TWO64 - 1 && (g == FRESH || g.lastUs == t + 1)
    ensures Admits(g, fps, t) && After(g, fps, t).lastUs == t + 1
  {
    hide Gap;
  }

  ghost predicate Sorted(times: seq<Word64>)
  {
    forall i, j | 0 <= i < j < |times| :: times[i] <= times[j]
  }

  // What is kept of sorted times is sorted.
  lemma {:induction false} KeptIsSorted(fps: Word32, times: seq<Word64>)
    requires Sorted(times)
    ensures Sorted(Kept(fps, times))
    ensures Kept(fps, times) != [] ==> Kept(fps, times)[|Kept(fps, times)| - 1] <= times[|times| - 1]
  {
    if times != [] {
      hide Admits, Run;
      var front := times[..|times| - 1];
      KeptIsSorted(fps, front);
      if front != [] { assert front[|front| - 1] <= times[|times| - 1]; }
    }
  }

  lemma NoGapNoBound(kept: seq<Word64>)
    requires Sorted(kept)
    ensures RateBounded(0, kept)
  {
    forall i, j | 0 <= i < j < |kept| ensures (j - i - 1) * 0 <= kept[j] - kept[i] + TOLERANCE_US {
      assert kept[i] <= kept[j];
    }
    forall j | 0 < j < |kept| ensures j * 0 <= kept[j] - kept[0] + TOLERANCE_US {
      assert kept[0] <= kept[j];
    }
  }

  // ... and so many of them break the bound, at any rate that has a gap: on all runs of times that
  // merely do not fall, the bound holds exactly when there is nothing to bound.
  lemma RateBoundWithRepeatsIff(fps: Word32)
    requires fps > 0
    ensures (forall times | Sorted(times) :: RateBounded(Gap(fps), Kept(fps, times))) <==> fps > 1_000_000
  {
    NoGapIff(fps);
    hide Kept, Sorted, Gap, RateBounded;
    if fps > 1_000_000 {
      forall times | Sorted(times) ensures RateBounded(Gap(fps), Kept(fps, times)) {
        KeptIsSorted(fps, times);
        NoGapNoBound(Kept(fps, times));
      }
    } else {
      var times := seq(TOLERANCE_US + 2, _ => 0);
      RepeatedTimeIsKept(fps, times, 0);
      EqualIsSorted(times);
      BoundIsBroken(Gap(fps), times);
    }
  }

  lemma NoGapIff(fps: Word32)
    requires fps > 0
    ensures Gap(fps) == 0 <==> fps > 1_000_000
  {
    assert SECOND_US == SECOND_US / fps * fps + SECOND_US % fps;
  }

  lemma EqualIsSorted(times: seq<Word64>)
    requires forall i | 0 <= i < |times| :: times[i] == 0
    ensures Sorted(times)
  {
  }

  lemma BoundIsBroken(gap: nat, kept: seq<Word64>)
    requires gap > 0 && |kept| == TOLERANCE_US + 2 && forall i | 0 <= i < |kept| :: kept[i] == 0
    ensures !RateBounded(gap, kept)
  {
    var j := TOLERANCE_US + 1;
    assert j * gap >= j;
    assert j * gap > kept[j] - kept[0] + TOLERANCE_US;
  }

  // No starvation: a frame at least a gap behind the last one kept is kept.
  lemma NoStarvation(fps: Word32, times: seq<Word64>, t: Word64)
    requires fps > 0 && Rising(times + [t])
    requires var kept := Kept(fps, times); kept != [] ==> t >= kept[|kept| - 1] + Gap(fps)
    ensures Kept(fps, times + [t]) == Kept(fps, times) + [t]
  {
    var all := times + [t];
    assert all[..|all| - 1] == times && all[|all| - 1] == t;
    RisingPrefix(all);
    RunIsPaced(fps, times);
    NothingWraps(Run(fps, times), fps, t);
  }

  // A capture slower than the target loses nothing.
  lemma {:induction false} SlowCaptureIsKeptWhole(fps: Word32, times: seq<Word64>)
    requires fps > 0 && Rising(times)
    requires forall i | 0 < i < |times| :: times[i] - times[i - 1] >= Gap(fps)
    ensures Kept(fps, times) == times
  {
    hide Gap, Kept, Rising;
    NoFrames(fps);
    if times != [] {
      var front, t := times[..|times| - 1], times[|times| - 1];
      RisingPrefix(times);
      SlowCaptureIsKeptWhole(fps, front);
      assert front + [t] == times;
      if front != [] { assert t - front[|front| - 1] >= Gap(fps); }
      NoStarvation(fps, front, t);
    }
  }

  // Frame k may come this far from its place on the grid that starts at the first frame.
  ghost predicate NearGrid(gap: nat, start: Word64, k: nat, t: Word64)
  {
    start + k * gap - TOLERANCE_US <= t <= start + k * gap + gap
  }

  lemma LockedStep(g: Gate, fps: Word32, start: Word64, k: nat, t: Word64)
    requires fps > 0 && t < TWO63
    requires if k == 0 then g == FRESH && t == start
             else 0 < g.lastUs <= t && g.lastUs <= TWO63 && g.nextDueUs == start + k * Gap(fps)
    requires k > 0 ==> NearGrid(Gap(fps), start, k - 1, g.lastUs - 1)
    requires NearGrid(Gap(fps), start, k, t)
    ensures Admits(g, fps, t)
    ensures After(g, fps, t).lastUs == t + 1 && After(g, fps, t).nextDueUs == start + (k + 1) * Gap(fps)
  {
    var gap := Gap(fps);
    hide Admits, After, Gap;
    assert (k + 1) * gap == k * gap + gap;
    if k > 0 {
      assert k * gap == (k - 1) * gap + gap;
    }
    NothingWraps(g, fps, t);
  }

  // Phase lock: a source at the target rate loses no frame to jitter, however long it runs, and the
  // due time stays on the grid.
  lemma {:induction false} PhaseLock(fps: Word32, start: Word64, times: seq<Word64>)
    requires fps > 0 && Rising(times) && (times != [] ==> times[0] == start)
    requires forall k | 0 <= k < |times| :: NearGrid(Gap(fps), start, k, times[k])
    ensures Kept(fps, times) == times
    ensures times != [] ==>
              && Run(fps, times).lastUs == times[|times| - 1] + 1
              && Run(fps, times).nextDueUs == start + |times| * Gap(fps)
  {
    hide Admits, After, Gap, NearGrid, Rising, Run, Kept;
    NoFrames(fps);
    if times != [] {
      var k, front, t := |times| - 1, times[..|times| - 1], times[|times| - 1];
      assert front + [t] == times;
      OneMoreFrame(fps, front, t);
      RisingPrefix(times);
      PhaseLock(fps, start, front);
      RisingAtEnd(times);
      if k > 0 {
        assert front[k - 1] == times[k - 1];
        assert NearGrid(Gap(fps), start, k - 1, times[k - 1]);
      }
      LockedStep(Run(fps, front), fps, start, k, t);
    }
  }

  lemma RisingAtEnd(times: seq<Word64>)
    requires times != [] && Rising(times)
    ensures times[|times| - 1] < TWO63
    ensures |times| > 1 ==> times[|times| - 2] < times[|times| - 1]
  {
  }

  lemma BusyStep(g: Gate, fps: Word32, start: Word64, n: nat, last: Word64, t: Word64)
    requires fps > 0 && n > 0 && last < t < TWO63 && t - last <= Gap(fps)
    requires 0 < g.lastUs <= last + 1
    requires last - start <= n * Gap(fps) && g.nextDueUs == start + n * Gap(fps) <= last + Gap(fps) + TOLERANCE_US
    ensures var m := if Admits(g, fps, t) then n + 1 else n;
            t - start <= m * Gap(fps) && After(g, fps, t).nextDueUs == start + m * Gap(fps)
  {
    var gap := Gap(fps);
    hide Admits, After, Gap;
    assert (n + 1) * gap == n * gap + gap;
    NothingWraps(g, fps, t);
  }

  // The frames kept cover the run at one gap each, and the due time lies at the end of them.
  ghost predicate Covers(fps: Word32, times: seq<Word64>)
    requires fps > 0 && times != []
  {
    var kept := |Kept(fps, times)|;
    && kept * Gap(fps) >= times[|times| - 1] as int - times[0]
    && Run(fps, times).nextDueUs == times[0] + kept * Gap(fps)
  }

  lemma FirstCovers(fps: Word32, t: Word64)
    requires fps > 0 && t < TWO63
    ensures Covers(fps, [] + [t])
  {
    hide Admits, After, Gap, Run, Kept;
    NoFrames(fps);
    OneMoreFrame(fps, [], t);
    NothingWraps(FRESH, fps, t);
    assert 1 * Gap(fps) == Gap(fps);
  }

  lemma NextCovers(fps: Word32, front: seq<Word64>, t: Word64)
    requires fps > 0 && front != [] && Rising(front + [t]) && t - front[|front| - 1] <= Gap(fps)
    requires Covers(fps, front)
    ensures Covers(fps, front + [t])
  {
    hide Admits, After, Gap, Paced, RateBounded, Run, Kept, Rising;
    var all, last := front + [t], front[|front| - 1];
    OneMoreFrame(fps, front, t);
    assert all[..|all| - 1] == front && all[|all| - 2] == last;
    RisingPrefix(all);
    RisingAtEnd(all);
    RunIsPaced(fps, front);
    PacedInShort(Run(fps, front), Gap(fps), Kept(fps, front));
    BusyStep(Run(fps, front), fps, front[0], |Kept(fps, front)|, last, t);
  }

  // A capture that never pauses longer than a gap, whatever its rate, meets the target: the frames
  // kept cover the whole time at one gap each.
  lemma {:induction false} FastCaptureMeetsTheTarget(fps: Word32, times: seq<Word64>)
    requires fps > 0 && Rising(times) && times != []
    requires forall i | 0 < i < |times| :: times[i] - times[i - 1] <= Gap(fps)
    ensures var kept := |Kept(fps, times)|;
            && kept * Gap(fps) >= times[|times| - 1] - times[0]
            && Run(fps, times).nextDueUs == times[0] + kept * Gap(fps)
  {
    hide Covers, Rising, Gap;
    var front, t := times[..|times| - 1], times[|times| - 1];
    assert times == front + [t];
    RisingPrefix(times);
    RisingAtEnd(times);
    if front == [] {
      FirstCovers(fps, t);
    } else {
      forall i | 0 < i < |front| ensures front[i] - front[i - 1] <= Gap(fps) {
        assert times[i] - times[i - 1] <= Gap(fps);
      }
      FastCaptureMeetsTheTarget(fps, front);
      AsCovered(fps, front);
      assert t - front[|front| - 1] == times[|times| - 1] - times[|times| - 2];
      NextCovers(fps, front, t);
    }
    AsCovered(fps, times);
  }

  lemma AsCovered(fps: Word32, times: seq<Word64>)
    requires fps > 0 && times != []
    ensures var kept := |Kept(fps, times)|;
            Covers(fps, times) <==> && kept * Gap(fps) >= times[|times| - 1] as int - times[0]
                                    && Run(fps, times).nextDueUs == times[0] + kept * Gap(fps)
  {
    hide Kept, Run, Gap;
  }

  lemma PacedInShort(g: Gate, gap: nat, kept: seq<Word64>)
    requires Paced(g, gap, kept) && kept != []
    ensures g.lastUs == kept[|kept| - 1] + 1 && kept[|kept| - 1] < TWO63
    ensures g.nextDueUs <= kept[|kept| - 1] + gap + TOLERANCE_US
  {
  }
}
