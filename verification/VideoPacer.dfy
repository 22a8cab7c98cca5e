// VideoPacer: when to show a frame, from the floor of the clock offset and a fixed lead.
module VideoPacing {
  import opened Machine
  import opened ClockOffsets

  const STREAM_JUMP_US: int := 2_000_000
  const RESYNC_THRESHOLD_US: int := 250_000

  // A frame that differs from the floor by more than a jump starts a new stream.
  predicate Jumps(c: Clock, s: Sample)
  {
    var drift := s.Raw() - c.floor;
    c.haveSample && (drift > STREAM_JUMP_US || drift < -STREAM_JUMP_US)
  }

  function Observed(c: Clock, s: Sample): Clock
  {
    Added(if Jumps(c, s) then Forget(c) else c, s)
  }

  function Timebase(c: Clock, lead: nat, now: Word64): int
  {
    S64(now) - c.floor - lead
  }

  function DisplayTime(c: Clock, lead: nat, pts: Word64, now: Word64): Word64
  {
    var at := S64(pts) + c.floor + lead;
    if at > S64(now) then U64(at) else now
  }

  predicate Diverged(c: Clock, lead: nat, timebase: int, now: Word64)
  {
    var diff := timebase - Timebase(c, lead, now);
    diff > RESYNC_THRESHOLD_US || diff < -RESYNC_THRESHOLD_US
  }

  class VideoPacer {
    const offset: ClockOffset
    const lead: nat

    constructor (leadUs: nat)
      ensures lead == leadUs && offset.State() == FRESH && fresh(offset)
    {
      offset := new ClockOffset();
      lead := leadUs;
    }

    method ObserveArrival(pts: Word64, now: Word64)
      modifies offset
      ensures offset.State() == Observed(old(offset.State()), Sample(pts, now))
    {
      if offset.haveSample {
        var raw := S64(now) as int - S64(pts) as int;
        var drift := raw - offset.floor;
        if drift > STREAM_JUMP_US || drift < -STREAM_JUMP_US {
          offset.Reset();
        }
      }
      offset.AddSample(pts, now);
    }

    method DesiredTimebaseUs(now: Word64) returns (t: int)
      ensures t == Timebase(offset.State(), lead, now)
    {
      t := S64(now) - offset.floor - lead;
    }

    method DisplayTimeUs(pts: Word64, now: Word64) returns (t: Word64)
      ensures t == DisplayTime(offset.State(), lead, pts, now)
    {
      var at := S64(pts) + offset.floor + lead;
      t := if at > S64(now) then U64(at) else now;
    }

    method NeedsResync(timebase: int, now: Word64) returns (r: bool)
      ensures r == Diverged(offset.State(), lead, timebase, now)
    {
      var desired := DesiredTimebaseUs(now);
      var diff := timebase - desired;
      r := diff > RESYNC_THRESHOLD_US || diff < -RESYNC_THRESHOLD_US;
    }

    method Reset()
      modifies offset
      ensures offset.State() == Forget(old(offset.State()))
    {
      offset.Reset();
    }
  }

  // ---------------------------------------------------------------------------------------------

  // A run of arrivals on a new pacer.
  function Watched(h: seq<Sample>): Clock
  {
    if h == [] then FRESH else Observed(Watched(h[..|h| - 1]), h[|h| - 1])
  }

  // The arrivals since the last jump: the stream now being watched.
  function Stream(h: seq<Sample>): (g: seq<Sample>)
    ensures h != [] ==> g != []
  {
    h[StreamStart(h)..]
  }

  // Where it begins: at the last jump.
  function StreamStart(h: seq<Sample>): (k: nat)
    ensures k <= |h| && (h != [] ==> k < |h|)
  {
    if h == [] then 0
    else if Jumps(Watched(h[..|h| - 1]), h[|h| - 1]) then |h| - 1
    else StreamStart(h[..|h| - 1])
  }

  lemma {:induction false} WatchedIsItsStream(h: seq<Sample>)
    ensures Watched(h) == Run(FRESH, Stream(h))
  {
    if h != [] {
      var front, s := h[..|h| - 1], h[|h| - 1];
      WatchedIsItsStream(front);
      if Jumps(Watched(front), s) {
        assert [s][..0] == [];
        assert Run(FRESH, [s]) == Added(Run(FRESH, []), s);
        assert Added(Forget(Watched(front)), s) == Added(FRESH, s);
      } else {
        assert Stream(h)[..|Stream(h)| - 1] == Stream(front);
      }
    }
  }

  // What the pacer keeps is the windowed minimum over the stream it is watching.
  lemma FloorOfStream(h: seq<Sample>)
    requires h != [] && Ordered(h)
    ensures var g := Stream(h);
            var w := WindowOf(g, |g| - 1);
            IsMinimum(g, w - 1, w, Watched(h).floor)
  {
    hide Watched, StreamStart, Run, IsMinimum;
    WatchedIsItsStream(h);
    OrderedSuffix(h, StreamStart(h));
    FloorIsTheWindowedMinimum(FRESH, Stream(h));
  }

  // An arrival no further than two seconds from the floor, either way, goes on with the stream; any other
  // begins a new one and is its floor.
  lemma StreamGoesOnIff(h: seq<Sample>, s: Sample)
    requires h != []
    ensures -2_000_000 <= s.Raw() - Watched(h).floor <= 2_000_000 ==> Watched(h + [s]) == Added(Watched(h), s)
    ensures !(-2_000_000 <= s.Raw() - Watched(h).floor <= 2_000_000) ==>
              Watched(h + [s]) == Added(FRESH, s) && Watched(h + [s]).floor == s.Raw()
  {
    hide Added, Sample.Raw;
    assert (h + [s])[..|h|] == h;
    ExcessIsBounded(h);
    Readied(Watched(h));
    ForgottenIsFresh(Watched(h), s);
    FirstSampleIsTheFloor(FRESH, s);
  }

  lemma ForgottenIsFresh(c: Clock, s: Sample)
    ensures Added(Forget(c), s) == Added(FRESH, s)
  {
  }

  // No two offsets of the run lie more than two seconds apart.
  ghost predicate Steady(h: seq<Sample>)
  {
    forall i, j | 0 <= i < |h| && 0 <= j < |h| :: h[i].Raw() - h[j].Raw() <= 2_000_000
  }

  // Such a run is never begun anew: late frames are excess, not jumps.
  lemma {:induction false} SteadyRunIsOneStream(h: seq<Sample>)
    requires Ordered(h) && Steady(h)
    ensures Watched(h) == Run(FRESH, h)
  {
    if h != [] {
      hide Added, IsMinimum, Sample.Raw;
      var front, s := h[..|h| - 1], h[|h| - 1];
      assert h == front + [s];
      assert forall i | 0 <= i < |front| :: front[i] == h[i];
      SteadyRunIsOneStream(front);
      if front == [] {
        assert Watched(front) == FRESH;
      } else {
        FloorIsAnOffset(front);
        StreamGoesOnIff(front, s);
      }
    }
  }

  lemma FloorIsAnOffset(h: seq<Sample>)
    requires h != [] && Ordered(h)
    ensures exists i :: 0 <= i < |h| && h[i].Raw() == Run(FRESH, h).floor
  {
    hide Run, Sample.Raw;
    FloorIsTheWindowedMinimum(FRESH, h);
  }

  // After every arrival the frame exceeds the floor by nothing negative and no more than a jump: on
  // any clock, even when windows have rotated or the stream has jumped.
  lemma {:induction false} ExcessIsBounded(h: seq<Sample>)
    requires h != []
    ensures 0 <= h[|h| - 1].Raw() - Watched(h).floor <= 2_000_000
    ensures UpToDate(Watched(h))
  {
    hide Added, UpToDate, Sample.Raw;
    var front, s := h[..|h| - 1], h[|h| - 1];
    if Jumps(Watched(front), s) || front == [] {
      FirstSampleIsTheFloor(if front == [] then FRESH else Forget(Watched(front)), s);
    } else {
      ExcessIsBounded(front);
      Readied(Watched(front));
    }
    FloorFallsToTheSampleAtMost(if Jumps(Watched(front), s) then Forget(Watched(front)) else Watched(front), s);
  }

  lemma Readied(c: Clock)
    requires UpToDate(c)
    ensures c.haveSample
  {
  }

  lemma FirstSampleIsTheFloor(c: Clock, s: Sample)
    requires !c.haveSample
    ensures Added(c, s).floor == s.Raw()
  {
  }

  // The frame just observed is held for the lead less its excess over the floor, if that is anything.
  lemma ShownAfterTheLead(h: seq<Sample>, lead: nat)
    requires h != [] && h[|h| - 1].local + lead < TWO63
    ensures var s := h[|h| - 1];
            DisplayTime(Watched(h), lead, s.hostPts, s.local)
            == Max(s.local, s.local + lead - (s.Raw() - Watched(h).floor))
  {
    hide Watched;
    ExcessIsBounded(h);
  }

  // So it is shown no earlier than now and no later than now plus the lead.
  lemma HoldIsBounded(h: seq<Sample>, lead: nat)
    requires h != []
    requires h[|h| - 1].local + lead < TWO63
    ensures var s := h[|h| - 1];
            s.local <= DisplayTime(Watched(h), lead, s.hostPts, s.local) <= s.local + lead
  {
    hide Watched;
    ExcessIsBounded(h);
  }

  // A frame is due in the future exactly when its pts lies beyond the timebase, and then at its pts on the
  // local clock, plus the lead; any other is shown at once.
  lemma DueIffBeyondTimebase(c: Clock, lead: nat, pts: Word64, now: Word64)
    requires S64(pts) + c.floor + lead < TWO64
    requires now < TWO63
    ensures DisplayTime(c, lead, pts, now) > now <==> S64(pts) > Timebase(c, lead, now)
    ensures DisplayTime(c, lead, pts, now)
            == if S64(pts) > Timebase(c, lead, now) then S64(pts) + c.floor + lead else now
  {
  }

  // While the floor holds still, frames that are due in the future keep the cadence of their pts
  // whatever the jitter of their arrivals.
  lemma CadenceFollowsPts(h: seq<Sample>, g: seq<Sample>, lead: nat)
    requires h != [] && h <= g && Watched(g).floor == Watched(h).floor
    requires h[|h| - 1].local + lead < TWO63 && g[|g| - 1].local + lead < TWO63
    requires S64(h[|h| - 1].hostPts) > Timebase(Watched(h), lead, h[|h| - 1].local)
    requires S64(g[|g| - 1].hostPts) > Timebase(Watched(g), lead, g[|g| - 1].local)
    ensures var s, t := h[|h| - 1], g[|g| - 1];
            DisplayTime(Watched(g), lead, t.hostPts, t.local) - DisplayTime(Watched(h), lead, s.hostPts, s.local)
            == S64(t.hostPts) - S64(s.hostPts)
  {
    hide Watched, DisplayTime, Timebase;
    ExcessIsBounded(h);
    ExcessIsBounded(g);
    EarlyFrameWaits(Watched(h), lead, h[|h| - 1]);
    EarlyFrameWaits(Watched(g), lead, g[|g| - 1]);
  }

  lemma EarlyFrameWaits(c: Clock, lead: nat, s: Sample)
    requires s.Raw() >= c.floor && s.local + lead < TWO63 && S64(s.hostPts) > Timebase(c, lead, s.local)
    ensures DisplayTime(c, lead, s.hostPts, s.local) == S64(s.hostPts) + c.floor + lead
  {
  }

  // A timebase set once and left to run with the clock needs a resync exactly when the floor has
  // moved by more than a quarter of a second since.
  lemma ResyncIffFloorMoved(c: Clock, d: Clock, lead: nat, setAt: Word64, now: Word64)
    requires setAt <= now < TWO63
    ensures Diverged(d, lead, Timebase(c, lead, setAt) + (now - setAt), now)
            <==> (d.floor - c.floor > 250_000 || c.floor - d.floor > 250_000)
  {
  }
}
