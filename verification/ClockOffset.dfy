// ClockOffset: the smallest offset between two clocks seen lately, kept in two buckets.
module ClockOffsets {
  import opened Machine

  const WINDOW_US: int := 10_000_000

  // The fields of the class as a value.
  datatype Clock = Clock(
    haveSample: bool,
    curMin: int,
    prevMin: int,
    curEmpty: bool,
    havePrev: bool,
    floor: int,
    lastRaw: int,
    windowStart: Word64)

  const FRESH := Clock(false, 0, 0, true, false, 0, 0, 0)

  datatype Sample = Sample(hostPts: Word64, local: Word64) {
    // The offset of the two clocks plus the transit of this sample.
    function Raw(): int
    {
      S64(local) as int - S64(hostPts) as int
    }
  }

  function Forget(c: Clock): Clock
  {
    Clock(false, 0, 0, c.curEmpty, false, 0, 0, 0)
  }

  function NextWindow(c: Clock): Clock
  {
    c.(prevMin := c.curMin, havePrev := !c.curEmpty, windowStart := U64(c.windowStart + WINDOW_US),
    curMin := 0, curEmpty := true)
  }

  // The rotation loop. It ends for every pair of times, a clock that steps back included.
  function Rotated(c: Clock, local: Word64): Clock
    decreases U64(local - c.windowStart)
  {
    if U64(local - c.windowStart) >= WINDOW_US then Rotated(NextWindow(c), local) else c
  }

  function Added(c: Clock, s: Sample): Clock
  {
    var raw := s.Raw();
    if !c.haveSample then Clock(true, raw, c.prevMin, false, false, raw, raw, s.local)
    else
      var r := Rotated(c.(lastRaw := raw), s.local);
      var cur := if r.curEmpty then raw else Min(r.curMin, raw);
      r.(curMin := cur, curEmpty := false,
      floor := if r.havePrev then Min(cur, r.prevMin) else cur)
  }

  function Latency(c: Clock, netFloor: Word64): int
  {
    if !c.haveSample then -1 else Max(0, c.lastRaw - c.floor) + S64(netFloor)
  }

  class ClockOffset {
    var haveSample: bool
    var curMin: int
    var prevMin: int
    var curEmpty: bool
    var havePrev: bool
    var floor: int
    var lastRaw: int
    var windowStart: Word64

    constructor ()
      ensures State() == FRESH
    {
      haveSample, curMin, prevMin, curEmpty := false, 0, 0, true;
      havePrev, floor, lastRaw, windowStart := false, 0, 0, 0;
    }

    ghost function State(): Clock
      reads this
    {
      Clock(haveSample, curMin, prevMin, curEmpty, havePrev, floor, lastRaw, windowStart)
    }

    method Reset()
      modifies this
      ensures State() == Forget(old(State()))
    {
      haveSample := false;
      havePrev := false;
      curMin, prevMin, floor, lastRaw := 0, 0, 0, 0;
      windowStart := 0;
    }

    method Rotate(local: Word64)
      modifies this
      ensures State() == Rotated(old(State()), local)
    {
      while U64(local - windowStart) >= WINDOW_US
        invariant Rotated(State(), local) == Rotated(old(State()), local)
        decreases U64(local - windowStart)
      {
        hide U64;
        OneWindowLess(local, windowStart);
        prevMin := curMin;
        havePrev := !curEmpty;
        windowStart := U64(windowStart + WINDOW_US);
        curMin := 0;
        curEmpty := true;
      }
    }

    method AddSample(hostPts: Word64, local: Word64)
      modifies this
      ensures State() == Added(old(State()), Sample(hostPts, local))
    {
      var raw := S64(local) as int - S64(hostPts) as int;
      lastRaw := raw;
      if !haveSample {
        haveSample := true;
        windowStart := local;
        curMin := raw;
        curEmpty := false;
        havePrev := false;
        floor := raw;
        return;
      }
      Rotate(local);
      if curEmpty {
        curMin := raw;
        curEmpty := false;
      } else {
        curMin := Min(curMin, raw);
      }
      floor := if havePrev then Min(curMin, prevMin) else curMin;
    }

    method LatencyUs(netFloor: Word64) returns (us: int)
      ensures us == Latency(State(), netFloor)
    {
      if !haveSample {
        return -1;
      }
      var excess := Max(0, lastRaw - floor);
      return excess + S64(netFloor);
    }
  }

  // ---------------------------------------------------------------------------------------------
  // Runs, against the history of all samples since the last reset.

  // A run of samples on a clock that has none.
  function Run(c: Clock, h: seq<Sample>): Clock
  {
    if h == [] then c else Added(Run(c, h[..|h| - 1]), h[|h| - 1])
  }

  ghost predicate Ordered(h: seq<Sample>)
  {
    forall i, j | 0 <= i < j < |h| :: h[i].local <= h[j].local
  }

  lemma OrderedSuffix(h: seq<Sample>, k: nat)
    requires k <= |h| && Ordered(h)
    ensures Ordered(h[k..])
  {
    forall i, j | 0 <= i < j < |h| - k ensures h[k..][i].local <= h[k..][j].local {
      assert h[k + i].local <= h[k + j].local;
    }
  }

  // Windows are counted from the first sample.
  function WindowOf(h: seq<Sample>, i: nat): int
    requires i < |h|
  {
    (h[i].local - h[0].local) / WINDOW_US
  }

  ghost predicate Occupied(h: seq<Sample>, w: int)
  {
    exists i :: 0 <= i < |h| && WindowOf(h, i) == w
  }

  // m is the smallest raw offset among the samples of the windows from lo to hi.
  ghost predicate IsMinimum(h: seq<Sample>, lo: int, hi: int, m: int)
  {
    && (exists i :: 0 <= i < |h| && lo <= WindowOf(h, i) <= hi && h[i].Raw() == m)
    && (forall i | 0 <= i < |h| && lo <= WindowOf(h, i) <= hi :: m <= h[i].Raw())
  }

  ghost predicate Tracks(c: Clock, h: seq<Sample>)
    requires h != []
  {
    var last := |h| - 1;
    var w := WindowOf(h, last);
    && c.haveSample && !c.curEmpty
    && c.windowStart == h[0].local + w * WINDOW_US
    && c.lastRaw == h[last].Raw()
    && IsMinimum(h, w, w, c.curMin)
    && c.havePrev == Occupied(h, w - 1)
    && (c.havePrev ==> IsMinimum(h, w - 1, w - 1, c.prevMin))
    && IsMinimum(h, w - 1, w, c.floor)
  }

  // On any input the loop stops in the window that holds the local time.
  lemma {:induction false} RotationEnds(c: Clock, local: Word64)
    ensures U64(local - Rotated(c, local).windowStart) == U64(local - c.windowStart) % WINDOW_US
    decreases U64(local - c.windowStart)
  {
    hide NextWindow, U64;
    RotatedOnce(c, local);
    OneWindowLess(local, c.windowStart);
    var d := U64(local - c.windowStart);
    if d >= WINDOW_US {
      RotationEnds(NextWindow(c), local);
    }
  }

  lemma OneWindowLess(local: Word64, start: Word64)
    ensures var d := U64(local - start);
            if d >= WINDOW_US
            then && U64(local - U64(start + WINDOW_US)) == d - WINDOW_US
                 && (d - WINDOW_US) % WINDOW_US == d % WINDOW_US
                 && (d - WINDOW_US) / WINDOW_US == d / WINDOW_US - 1
            else d % WINDOW_US == d && d / WINDOW_US == 0
  {
    if U64(local - start) >= WINDOW_US { WindowWraps(local, start); }
    hide U64;
  }

  lemma WindowWraps(local: Word64, start: Word64)
    requires U64(local - start) >= WINDOW_US
    ensures U64(local - U64(start + WINDOW_US)) == U64(local - start) - WINDOW_US
  {
  }

  // Where the clock does not step back the start of the window does not wrap.
  lemma WindowStartMoves(start: Word64, local: Word64)
    requires start <= local && U64(local - start) >= WINDOW_US
    ensures U64(start + WINDOW_US) == start + WINDOW_US <= local
  {
  }

  // One turn of the loop.
  lemma RotatedOnce(c: Clock, local: Word64)
    ensures Rotated(c, local) == if U64(local - c.windowStart) >= WINDOW_US then Rotated(NextWindow(c), local) else c
    ensures NextWindow(c).windowStart == U64(c.windowStart + WINDOW_US)
  {
    hide U64;
  }

  // What rotation over k windows leaves behind, on any input.
  lemma {:induction false} RotationSkips(c: Clock, local: Word64, k: nat)
    requires k == U64(local - c.windowStart) / WINDOW_US
    ensures Rotated(c, local).haveSample == c.haveSample && Rotated(c, local).lastRaw == c.lastRaw
    ensures k == 0 ==> Rotated(c, local) == c
    ensures k == 1 ==> Rotated(c, local) == NextWindow(c)
    ensures k >= 1 ==> Rotated(c, local).curEmpty
    ensures k >= 2 ==> !Rotated(c, local).havePrev
    ensures k >= 1 && c.curEmpty ==> !Rotated(c, local).havePrev
    ensures c.windowStart <= local ==> Rotated(c, local).windowStart == c.windowStart + k * WINDOW_US
    decreases k
  {
    hide U64, Rotated;
    RotatedOnce(c, local);
    OneWindowLess(local, c.windowStart);
    if k >= 1 {
      RotationSkips(NextWindow(c), local, k - 1);
      if c.windowStart <= local { WindowStartMoves(c.windowStart, local); }
    }
  }

  // When the floor is up to date, one more sample moves it no further down than to itself, on any
  // clock: whatever rotates out of the windows only raises it.
  predicate UpToDate(c: Clock)
  {
    c.haveSample && !c.curEmpty && c.floor == if c.havePrev then Min(c.curMin, c.prevMin) else c.curMin
  }

  lemma FloorFallsToTheSampleAtMost(c: Clock, s: Sample)
    ensures UpToDate(Added(c, s)) && Added(c, s).floor <= s.Raw()
    ensures UpToDate(c) ==> Min(c.floor, s.Raw()) <= Added(c, s).floor
  {
    if c.haveSample {
      RotationSkips(c.(lastRaw := s.Raw()), s.local, U64(s.local - c.windowStart) / WINDOW_US);
    }
  }

  // The windows of old samples do not depend on newer ones.
  lemma WindowsStay(h: seq<Sample>, s: Sample)
    requires h != []
    ensures forall i | 0 <= i < |h| :: WindowOf(h + [s], i) == WindowOf(h, i)
  {
  }

  lemma MinimumWithOneMore(h: seq<Sample>, s: Sample, lo: int, hi: int, m: int)
    requires h != [] && IsMinimum(h, lo, hi, m)
    ensures lo <= WindowOf(h + [s], |h|) <= hi ==> IsMinimum(h + [s], lo, hi, Min(m, s.Raw()))
    ensures !(lo <= WindowOf(h + [s], |h|) <= hi) ==> IsMinimum(h + [s], lo, hi, m)
  {
    var g := h + [s];
    WindowsStay(h, s);
    var i :| 0 <= i < |h| && lo <= WindowOf(h, i) <= hi && h[i].Raw() == m;
    assert WindowOf(g, i) == WindowOf(h, i) && g[i] == h[i] && g[|h|] == s;
    forall j | 0 <= j < |h| && lo <= WindowOf(g, j) <= hi ensures m <= g[j].Raw() {
      assert WindowOf(h, j) == WindowOf(g, j);
    }
  }

  lemma FirstOfItsWindow(h: seq<Sample>, s: Sample)
    requires h != [] && Ordered(h + [s])
    requires WindowOf(h, |h| - 1) < WindowOf(h + [s], |h|)
    ensures IsMinimum(h + [s], WindowOf(h + [s], |h|), WindowOf(h + [s], |h|), s.Raw())
    ensures forall i | 0 <= i < |h| :: WindowOf(h + [s], i) <= WindowOf(h, |h| - 1)
  {
    var g := h + [s];
    forall i | 0 <= i < |h| ensures WindowOf(g, i) <= WindowOf(h, |h| - 1) {
      assert g[i].local <= g[|h| - 1].local;
    }
    assert g[|h|] == s;
  }

  // Two neighbouring windows: the minimum of both is the smaller of the two minima.
  lemma MinimumOfTwo(h: seq<Sample>, w: int, cur: int, prev: int)
    requires IsMinimum(h, w, w, cur)
    ensures !Occupied(h, w - 1) ==> IsMinimum(h, w - 1, w, cur)
    ensures IsMinimum(h, w - 1, w - 1, prev) ==> IsMinimum(h, w - 1, w, Min(cur, prev))
  {
    var i :| 0 <= i < |h| && WindowOf(h, i) == w && h[i].Raw() == cur;
    if IsMinimum(h, w - 1, w - 1, prev) {
      var j :| 0 <= j < |h| && WindowOf(h, j) == w - 1 && h[j].Raw() == prev;
      assert w - 1 <= WindowOf(h, j) <= w && w - 1 <= WindowOf(h, i) <= w;
    }
  }

  lemma FirstSampleTracks(c: Clock, s: Sample)
    requires !c.haveSample
    ensures Tracks(Added(c, s), [s])
  {
    assert WindowOf([s], 0) == 0;
  }

  // The next sample, in the window the clock is already in ...
  lemma SameWindowTracks(c: Clock, h: seq<Sample>, s: Sample)
    requires h != [] && Ordered(h + [s]) && Tracks(c, h)
    requires WindowOf(h + [s], |h|) == WindowOf(h, |h| - 1)
    ensures Tracks(Added(c, s), h + [s])
  {
    hide IsMinimum, Occupied, Rotated, Sample.Raw;
    var w := WindowOf(h + [s], |h|);
    assert (h + [s])[|h| - 1].local <= (h + [s])[|h|].local && (h + [s])[|h|] == s;
    RotationSkips(c.(lastRaw := s.Raw()), s.local, 0);
    MinimumWithOneMore(h, s, w, w, c.curMin);
    OccupiedBefore(h, s, w - 1);
    if c.havePrev { MinimumWithOneMore(h, s, w - 1, w - 1, c.prevMin); }
    MinimumOfTwo(h + [s], w, Added(c, s).curMin, Added(c, s).prevMin);
  }

  // ... in the next one ...
  lemma NextWindowTracks(c: Clock, h: seq<Sample>, s: Sample)
    requires h != [] && Ordered(h + [s]) && Tracks(c, h)
    requires WindowOf(h + [s], |h|) == WindowOf(h, |h| - 1) + 1
    ensures Tracks(Added(c, s), h + [s])
  {
    hide IsMinimum, Rotated, Sample.Raw;
    var w := WindowOf(h + [s], |h|);
    assert (h + [s])[|h|] == s;
    RotationSkips(c.(lastRaw := s.Raw()), s.local, 1);
    FirstOfItsWindow(h, s);
    MinimumWithOneMore(h, s, w - 1, w - 1, c.curMin);
    OccupiedBefore(h, s, w - 1);
    assert Occupied(h, w - 1) by { assert WindowOf(h, |h| - 1) == w - 1; }
    MinimumOfTwo(h + [s], w, Added(c, s).curMin, Added(c, s).prevMin);
  }

  // ... or after a silence that leaves a window empty.
  lemma LaterWindowTracks(c: Clock, h: seq<Sample>, s: Sample)
    requires h != [] && Ordered(h + [s]) && Tracks(c, h)
    requires WindowOf(h + [s], |h|) > WindowOf(h, |h| - 1) + 1
    ensures Tracks(Added(c, s), h + [s])
  {
    hide IsMinimum, Rotated, Sample.Raw;
    var w := WindowOf(h + [s], |h|);
    assert (h + [s])[|h|] == s;
    RotationSkips(c.(lastRaw := s.Raw()), s.local, w - WindowOf(h, |h| - 1));
    FirstOfItsWindow(h, s);
    assert !Occupied(h + [s], w - 1);
    MinimumOfTwo(h + [s], w, Added(c, s).curMin, Added(c, s).prevMin);
  }

  lemma SampleKeepsTracking(c: Clock, h: seq<Sample>, s: Sample)
    requires h != [] && Ordered(h + [s]) && Tracks(c, h)
    ensures Tracks(Added(c, s), h + [s])
  {
    var g := h + [s];
    assert g[|h| - 1].local <= g[|h|].local;
    var k := WindowOf(g, |h|) - WindowOf(h, |h| - 1);
    if k == 0 {
      SameWindowTracks(c, h, s);
    } else if k == 1 {
      NextWindowTracks(c, h, s);
    } else {
      LaterWindowTracks(c, h, s);
    }
  }

  lemma OccupiedBefore(h: seq<Sample>, s: Sample, w: int)
    requires h != [] && w != WindowOf(h + [s], |h|)
    ensures Occupied(h + [s], w) == Occupied(h, w)
  {
    var g := h + [s];
    WindowsStay(h, s);
    if Occupied(h, w) {
      var i :| 0 <= i < |h| && WindowOf(h, i) == w;
      assert WindowOf(g, i) == w;
    }
    if Occupied(g, w) {
      var i :| 0 <= i < |g| && WindowOf(g, i) == w;
      assert i < |h| && WindowOf(h, i) == w;
    }
  }

  lemma {:induction false} RunTracks(c: Clock, h: seq<Sample>)
    requires !c.haveSample && h != [] && Ordered(h)
    ensures Tracks(Run(c, h), h)
  {
    var front, s := h[..|h| - 1], h[|h| - 1];
    assert h == front + [s];
    if front == [] {
      FirstSampleTracks(c, s);
      assert Run(c, front) == c;
      assert h == [s];
    } else {
      RunTracks(c, front);
      SampleKeepsTracking(Run(c, front), front, s);
    }
  }

  // After every run the floor is the smallest raw offset of the current window and the one before.
  lemma FloorIsTheWindowedMinimum(c: Clock, h: seq<Sample>)
    requires !c.haveSample && h != [] && Ordered(h)
    ensures var w := WindowOf(h, |h| - 1);
            IsMinimum(h, w - 1, w, Run(c, h).floor)
  {
    RunTracks(c, h);
  }

  // In time: no sample of the last window length beats the floor, and the floor is the offset of a
  // sample less than two window lengths old.
  lemma FloorInTime(c: Clock, h: seq<Sample>)
    requires !c.haveSample && h != [] && Ordered(h)
    ensures var now, floor := h[|h| - 1].local, Run(c, h).floor;
            && (forall i | 0 <= i < |h| && now - h[i].local < 10_000_000 :: floor <= h[i].Raw())
            && (exists i :: 0 <= i < |h| && now - h[i].local < 20_000_000 && h[i].Raw() == floor)
  {
    FloorIsTheWindowedMinimum(c, h);
    var w, now, floor := WindowOf(h, |h| - 1), h[|h| - 1].local, Run(c, h).floor;
    forall i | 0 <= i < |h| && now - h[i].local < WINDOW_US ensures floor <= h[i].Raw() {
      assert w - 1 <= WindowOf(h, i) <= w by { if i < |h| - 1 { assert h[i].local <= now; } }
    }
    var i :| 0 <= i < |h| && w - 1 <= WindowOf(h, i) <= w && h[i].Raw() == floor;
    assert now - h[i].local < 2 * WINDOW_US;
  }

  // The latency is what the newest sample exceeds that minimum by; the clamp at zero never bites.
  lemma LatencyIsTheExcess(c: Clock, h: seq<Sample>, netFloor: Word64)
    requires !c.haveSample && h != [] && Ordered(h)
    ensures var excess := h[|h| - 1].Raw() - Run(c, h).floor;
            excess >= 0 && Latency(Run(c, h), netFloor) == excess + S64(netFloor)
    ensures Latency(c, netFloor) == Latency(Forget(Run(c, h)), netFloor) == -1
  {
    RunTracks(c, h);
  }

  // A clock that went through Forget reports exactly what a new one does.
  lemma {:induction false} ForgettingStartsAfresh(c: Clock, h: seq<Sample>, netFloor: Word64)
    ensures Latency(Run(Forget(c), h), netFloor) == Latency(Run(FRESH, h), netFloor)
    ensures Run(Forget(c), h).floor == Run(FRESH, h).floor
    ensures h != [] ==> Run(Forget(c), h) == Run(FRESH, h)
  {
    if h != [] {
      ForgettingStartsAfresh(c, h[..|h| - 1], netFloor);
    }
  }
}
