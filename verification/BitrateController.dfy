// BitrateController: bitrate and error correction from the loss and the backlog that viewers report.
module BitrateControl {
  import opened Machine

  const CLEAN_SECONDS_BEFORE_DROPPING_FEC: int := 10
  const BACKLOG_MS: int := 150
  const SEVERE_BACKLOG_MS: int := 400
  const SETTLE_US: int := 2_000_000

  datatype Report = Report(lossPct: Byte, frameAgeMs: Word32, now: Word64)

  datatype Decision = Decision(bitrate: Word32, changeBitrate: bool, fecEnabled: bool, fecToggled: bool)

  datatype Limits = Limits(min: Word32, max: Word32)

  // The fields that change.
  datatype Rate = Rate(cur: Word32, lastDecrease: Word64, cleanSeconds: nat, fec: bool)

  predicate Severe(r: Report) { r.lossPct >= 5 || r.frameAgeMs >= SEVERE_BACKLOG_MS }
  predicate Mild(r: Report) { !Severe(r) && (r.lossPct >= 2 || r.frameAgeMs >= BACKLOG_MS) }

  function Clamped(m: Limits, bps: Word32): Word32
  {
    var low := if bps > m.max then m.max else bps;
    if low < m.min then m.min else low
  }

  // The bitrate a report asks for; settled says that the last decrease is long enough ago.
  function Target(m: Limits, cur: Word32, r: Report, settled: bool): Word32
  {
    Clamped(m,
            if Severe(r) then cur - cur / 4
            else if Mild(r) then cur - cur / 10
            else if settled then U32(cur + m.max / 20)
            else cur)
  }

  // Changes of less than two percent are not worth an encoder call.
  predicate Worthwhile(cur: Word32, next: Word32)
  {
    next != cur && (if next > cur then next as int - cur else cur as int - next) >= cur / 50
  }

  predicate Settled(s: Rate, now: Word64)
  {
    U64(now - s.lastDecrease) > SETTLE_US
  }

  function Decided(m: Limits, s: Rate, r: Report): Decision
  {
    var next := Target(m, s.cur, r, Settled(s, r.now));
    var fec := r.lossPct >= 1 || (s.fec && s.cleanSeconds + 1 < CLEAN_SECONDS_BEFORE_DROPPING_FEC);
    var change := Worthwhile(s.cur, next);
    Decision(if change then next else s.cur, change, fec, fec != s.fec)
  }

  function Updated(m: Limits, s: Rate, r: Report): Rate
  {
    s.(cleanSeconds := if r.lossPct >= 1 then 0 else s.cleanSeconds + 1,
    fec := Decided(m, s, r).fecEnabled,
    lastDecrease := if Severe(r) || Mild(r) then r.now else s.lastDecrease)
  }

  // Update, and then the commit of the bitrate it decided on.
  function Applied(m: Limits, s: Rate, r: Report): Rate
  {
    Updated(m, s, r).(cur := Decided(m, s, r).bitrate)
  }

  class BitrateController {
    const limits: Limits
    var cur: Word32
    var lastDecreaseUs: Word64
    var cleanSeconds: nat
    var fec: bool

    constructor (startBps: Word32, minBps: Word32)
      ensures limits == Limits(minBps, startBps) && State() == Start(limits)
    {
      limits := Limits(minBps, startBps);
      cur, lastDecreaseUs, cleanSeconds, fec := startBps, 0, 0, true;
    }

    ghost function State(): Rate
      reads this
    {
      Rate(cur, lastDecreaseUs, cleanSeconds, fec)
    }

    method Update(r: Report) returns (d: Decision)
      modifies this
      ensures d == Decided(limits, old(State()), r)
      ensures State() == Updated(limits, old(State()), r)
    {
      hide U32, U64, Worthwhile;
      ghost var before := State();
      var fecBefore := fec;
      if r.lossPct >= 1 {
        cleanSeconds := 0;
        fec := true;
      } else {
        cleanSeconds := cleanSeconds + 1;
        if cleanSeconds >= CLEAN_SECONDS_BEFORE_DROPPING_FEC {
          fec := false;
        }
      }
      var next := NextBitrate(r);
      var change := Worthwhile(cur, next);
      d := Decision(if change then next else cur, change, fec, fec != fecBefore);
      assert d == Decided(limits, before, r) by { hide Target; }
    }

    // The part of Update that moves the bitrate.
    method NextBitrate(r: Report) returns (next: Word32)
      modifies `lastDecreaseUs
      ensures next == Target(limits, cur, r, Settled(old(State()), r.now))
      ensures lastDecreaseUs == if Severe(r) || Mild(r) then r.now else old(lastDecreaseUs)
    {
      hide U32, U64;
      next := cur;
      if r.lossPct >= 5 || r.frameAgeMs >= SEVERE_BACKLOG_MS {
        next := cur - cur / 4;
        lastDecreaseUs := r.now;
      } else if r.lossPct >= 2 || r.frameAgeMs >= BACKLOG_MS {
        next := cur - cur / 10;
        lastDecreaseUs := r.now;
      } else if r.lossPct <= 1 && U64(r.now - lastDecreaseUs) > SETTLE_US {
        next := U32(cur + limits.max / 20);
      }
      if next > limits.max {
        next := limits.max;
      }
      if next < limits.min {
        next := limits.min;
      }
    }

    method CommitBitrate(bps: Word32)
      modifies this
      ensures State() == old(State()).(cur := bps)
    {
      cur := bps;
    }
  }

  // The step a host makes on a report: the decision is put to the encoder, and committed if it is taken.
  method Follow(c: BitrateController, r: Report, taken: bool)
    modifies c
    ensures c.State() == if taken then Applied(c.limits, old(c.State()), r) else Updated(c.limits, old(c.State()), r)
  {
    var d := c.Update(r);
    if d.changeBitrate && taken {
      c.CommitBitrate(d.bitrate);
    }
  }

  // ---------------------------------------------------------------------------------------------

  function Start(m: Limits): Rate
  {
    Rate(m.max, 0, 0, true)
  }

  function Run(m: Limits, s: Rate, h: seq<Report>): Rate
  {
    if h == [] then s else Applied(m, Run(m, s, h[..|h| - 1]), h[|h| - 1])
  }

  predicate InBounds(m: Limits, cur: Word32)
  {
    m.min <= cur <= m.max
  }

  // The bitrate never leaves its limits, whatever is reported.
  lemma {:induction false} StaysInBounds(m: Limits, h: seq<Report>)
    requires m.min <= m.max
    ensures InBounds(m, Run(m, Start(m), h).cur)
  {
    if h != [] {
      StaysInBounds(m, h[..|h| - 1]);
    }
  }

  lemma {:induction false} RunGoesOn(m: Limits, s: Rate, h: seq<Report>, g: seq<Report>)
    ensures Run(m, s, h + g) == Run(m, Run(m, s, h), g)
  {
    hide Applied;
    if g == [] {
      assert h + g == h;
    } else {
      var front := g[..|g| - 1];
      RunGoesOn(m, s, h, front);
      assert (h + g)[..|h + g| - 1] == h + front;
    }
  }

  // The number of loss-free reports at the end of a run.
  function CleanTail(h: seq<Report>): (n: nat)
    ensures n <= |h|
    ensures forall i | |h| - n <= i < |h| :: h[i].lossPct == 0
    ensures n < |h| ==> h[|h| - n - 1].lossPct > 0
  {
    if h == [] || h[|h| - 1].lossPct >= 1 then 0 else CleanTail(h[..|h| - 1]) + 1
  }

  lemma {:induction false} FecFollowsTheTail(m: Limits, h: seq<Report>)
    ensures Run(m, Start(m), h).cleanSeconds == CleanTail(h)
    ensures Run(m, Start(m), h).fec == (CleanTail(h) < CLEAN_SECONDS_BEFORE_DROPPING_FEC)
  {
    if h != [] {
      FecFollowsTheTail(m, h[..|h| - 1]);
    }
  }

  // Error correction is off exactly while the last ten reports were all free of loss.
  lemma FecIsOffAfterTenCleanReports(m: Limits, h: seq<Report>)
    ensures !Run(m, Start(m), h).fec <==>
            |h| >= 10 && forall i | |h| - 10 <= i < |h| :: h[i].lossPct == 0
  {
    FecFollowsTheTail(m, h);
    var n := CleanTail(h);
    if n < 10 && |h| >= 10 {
      assert h[|h| - n - 1].lossPct > 0;
    }
  }

  // ---------------------------------------------------------------------------------------------
  // Rising again: reports that allow a rise, and what they make of the bitrate.

  predicate Healthy(r: Report) { r.lossPct <= 1 && r.frameAgeMs < BACKLOG_MS }

  function Moved(cur: Word32, next: Word32): Word32
  {
    if Worthwhile(cur, next) then next else cur
  }

  function Raised(m: Limits, cur: Word32): Word32
  {
    Moved(cur, Clamped(m, U32(cur + m.max / 20)))
  }

  function RaisedBy(m: Limits, cur: Word32, n: nat): Word32
  {
    if n == 0 then cur else Raised(m, RaisedBy(m, cur, n - 1))
  }

  // When loss or backlog was last reported, or 0.
  function LastTrouble(h: seq<Report>): Word64
  {
    if h == [] then 0
    else if Healthy(h[|h| - 1]) then LastTrouble(h[..|h| - 1])
    else h[|h| - 1].now
  }

  lemma {:induction false} TroubleIsStamped(m: Limits, h: seq<Report>)
    ensures Run(m, Start(m), h).lastDecrease == LastTrouble(h)
  {
    if h != [] {
      TroubleIsStamped(m, h[..|h| - 1]);
    }
  }

  // On every run the bitrate is raised only by a healthy report, more than two seconds after the last
  // report of loss or backlog.
  lemma RaisedOnlyOnceSettled(m: Limits, h: seq<Report>, r: Report)
    requires m.min <= m.max
    requires Run(m, Start(m), h + [r]).cur > Run(m, Start(m), h).cur
    ensures r.lossPct <= 1 && r.frameAgeMs < 150 && U64(r.now - LastTrouble(h)) > 2_000_000
  {
    hide U32, U64, Worthwhile;
    TroubleIsStamped(m, h);
    StaysInBounds(m, h);
    assert (h + [r])[..|h|] == h;
  }

  // What one report does after any run: a quarter or a tenth down, a twentieth of the ceiling up once the
  // last trouble is two seconds ago, nothing otherwise; within the limits, and only by two percent or more.
  lemma ReportMoves(m: Limits, h: seq<Report>, r: Report)
    requires m.min <= m.max
    ensures var cur := Run(m, Start(m), h).cur;
            var aim := if r.lossPct >= 5 || r.frameAgeMs >= 400 then cur - cur / 4
                       else if r.lossPct >= 2 || r.frameAgeMs >= 150 then cur - cur / 10
                       else if U64(r.now - LastTrouble(h)) > 2_000_000 then U32(cur + m.max / 20)
                       else cur;
            var next := Max(m.min, Min(m.max, aim));
            Run(m, Start(m), h + [r]).cur == if Max(next - cur, cur - next) >= Max(cur / 50, 1) then next else cur
  {
    hide U32, U64, Run, Target, Worthwhile;
    TroubleIsStamped(m, h);
    StaysInBounds(m, h);
    OneMoreReport(m, h, r);
    var s := Run(m, Start(m), h);
    var settled := Settled(s, r.now);
    TargetIs(m, s.cur, r, settled);
    WorthwhileIs(s.cur, Target(m, s.cur, r, settled));
  }

  lemma TargetIs(m: Limits, cur: Word32, r: Report, settled: bool)
    requires InBounds(m, cur)
    ensures var aim := if r.lossPct >= 5 || r.frameAgeMs >= 400 then cur - cur / 4
                       else if r.lossPct >= 2 || r.frameAgeMs >= 150 then cur - cur / 10
                       else if settled then U32(cur + m.max / 20)
                       else cur;
            Target(m, cur, r, settled) == Max(m.min, Min(m.max, aim))
  {
    hide U32;
  }

  lemma WorthwhileIs(cur: Word32, next: Word32)
    ensures Worthwhile(cur, next) <==> Max(next - cur, cur - next) >= Max(cur / 50, 1)
  {
  }

  lemma OneMoreReport(m: Limits, h: seq<Report>, r: Report)
    ensures Run(m, Start(m), h + [r]) == Applied(m, Run(m, Start(m), h), r)
  {
    hide Applied;
    assert (h + [r])[..|h|] == h;
  }

  // What the decision tells the host is what has changed, and nothing else.
  lemma DecisionTellsTheChange(m: Limits, h: seq<Report>, r: Report)
    ensures var before, after, d := Run(m, Start(m), h), Run(m, Start(m), h + [r]), Decided(m, Run(m, Start(m), h), r);
            && d.bitrate == after.cur && (d.changeBitrate <==> after.cur != before.cur)
            && d.fecEnabled == after.fec && (d.fecToggled <==> after.fec != before.fec)
  {
    OneMoreReport(m, h, r);
    hide Run, Target;
  }

  // All of g healthy, and more than two seconds after the last trouble in h.
  ghost predicate Quiet(h: seq<Report>, g: seq<Report>)
  {
    forall i | 0 <= i < |g| ::
      g[i].lossPct <= 1 && g[i].frameAgeMs < 150 && U64(g[i].now - LastTrouble(h)) > 2_000_000
  }

  // Such reports, whatever went before, raise the bitrate step by step.
  lemma QuietRunRaises(m: Limits, h: seq<Report>, g: seq<Report>)
    requires Quiet(h, g)
    ensures Run(m, Start(m), h + g).cur == RaisedBy(m, Run(m, Start(m), h).cur, |g|)
  {
    hide Run, RaisedBy, U64;
    var s := Run(m, Start(m), h);
    TroubleIsStamped(m, h);
    RunGoesOn(m, Start(m), h, g);
    assert forall i | 0 <= i < |g| :: Healthy(g[i]) && Settled(s, g[i].now);
    HealthyRunRaises(m, s, g);
  }

  // The same from a state whose last decrease is long enough ago.
  lemma {:induction false} HealthyRunRaises(m: Limits, s: Rate, h: seq<Report>)
    requires forall i | 0 <= i < |h| :: Healthy(h[i]) && Settled(s, h[i].now)
    ensures Run(m, s, h).cur == RaisedBy(m, s.cur, |h|) && Run(m, s, h).lastDecrease == s.lastDecrease
  {
    hide Applied, Raised, Healthy, Settled;
    if h != [] {
      var front, r := h[..|h| - 1], h[|h| - 1];
      HealthyRunRaises(m, s, front);
      assert Healthy(r) && Settled(s, r.now);
      SettledBySameDecrease(s, Run(m, s, front), r.now);
      HealthyReportRaises(m, Run(m, s, front), r);
    }
  }

  lemma SettledBySameDecrease(s: Rate, t: Rate, now: Word64)
    requires s.lastDecrease == t.lastDecrease
    ensures Settled(s, now) == Settled(t, now)
  {
  }

  lemma HealthyReportRaises(m: Limits, s: Rate, r: Report)
    requires Healthy(r) && Settled(s, r.now)
    ensures Applied(m, s, r).cur == Raised(m, s.cur) && Applied(m, s, r).lastDecrease == s.lastDecrease
  {
    hide Clamped, Worthwhile, U32;
  }

  // The addition of the rise does not wrap.
  predicate RiseFits(m: Limits) { m.max + m.max / 20 < TWO32 }

  // What a rise that fits aims at.
  lemma RiseAimsAt(m: Limits, cur: Word32)
    requires InBounds(m, cur) && RiseFits(m)
    ensures Clamped(m, U32(cur + m.max / 20)) == Min(cur + m.max / 20, m.max)
  {
    Whole(cur + m.max / 20);
    hide U32;
  }

  lemma Whole(n: nat)
    requires n < TWO32
    ensures U32(n) == n
  {
  }

  lemma RiseNeverLowers(m: Limits, cur: Word32)
    requires InBounds(m, cur) && (RiseFits(m) || m.max - m.min < m.max / 50)
    ensures Raised(m, cur) >= cur
  {
    if RiseFits(m) {
      RiseAimsAt(m, cur);
    } else {
      CloseLimits(m, cur);
    }
    hide U32;
  }

  // A healthy report never lowers the bitrate exactly when the rise fits 32 bits, or when the limits
  // are too close together for the fall to be worthwhile.
  lemma HealthNeverLowersIff(m: Limits)
    requires m.min <= m.max
    ensures (forall cur: Word32 :: InBounds(m, cur) ==> Raised(m, cur) >= cur)
            <==> RiseFits(m) || m.max - m.min < m.max / 50
  {
    if RiseFits(m) || m.max - m.min < m.max / 50 {
      hide Raised, RiseFits;
      forall cur: Word32 | InBounds(m, cur) ensures Raised(m, cur) >= cur {
        RiseNeverLowers(m, cur);
      }
    } else {
      TopFalls(m);
      assert InBounds(m, m.max);
    }
  }

  lemma CloseLimits(m: Limits, cur: Word32)
    requires InBounds(m, cur) && m.max - m.min < m.max / 50
    ensures cur == m.min || cur - m.min < cur / 50
  {
    var d := m.max - cur;
    assert cur / 50 >= m.max / 50 - d;
  }

  // Within the two percent that no change bridges.
  predicate AtTop(m: Limits, cur: Word32) { cur == m.max || m.max - cur < cur / 50 }

  lemma TopIsKept(m: Limits, cur: Word32)
    requires InBounds(m, cur) && RiseFits(m) && AtTop(m, cur)
    ensures Raised(m, cur) == cur || Raised(m, cur) == m.max
    ensures AtTop(m, Raised(m, cur))
  {
    RiseAimsAt(m, cur);
    hide U32, Clamped;
  }

  lemma {:induction false} RiseInSteps(m: Limits, cur: Word32, n: nat)
    requires InBounds(m, cur) && RiseFits(m)
    ensures InBounds(m, RaisedBy(m, cur, n))
    ensures AtTop(m, RaisedBy(m, cur, n)) || RaisedBy(m, cur, n) >= cur + n * (m.max / 20)
  {
    if n > 0 {
      RiseInSteps(m, cur, n - 1);
      var step, before := m.max / 20, RaisedBy(m, cur, n - 1);
      assert n * step == (n - 1) * step + step;
      if !AtTop(m, before) {
        OneRise(m, before);
      } else {
        TopIsKept(m, before);
      }
    }
  }

  lemma OneRise(m: Limits, cur: Word32)
    requires InBounds(m, cur) && RiseFits(m) && !AtTop(m, cur)
    ensures InBounds(m, Raised(m, cur))
    ensures AtTop(m, Raised(m, cur)) || Raised(m, cur) == cur + m.max / 20
  {
    RiseAimsAt(m, cur);
    hide U32, Clamped;
  }

  const RISE_REPORTS: nat := 39

  lemma EnoughRises(m: Limits, cur: Word32, n: nat)
    requires InBounds(m, cur) && RiseFits(m) && m.max >= 20 && n >= RISE_REPORTS
    ensures AtTop(m, RaisedBy(m, cur, n))
  {
    hide RaisedBy, RiseFits;
    RiseInSteps(m, cur, n);
    Scaled(RISE_REPORTS, n, m.max / 20);
    assert RISE_REPORTS * (m.max / 20) >= m.max;
  }

  lemma {:induction false} RaisingNeverLowers(m: Limits, cur: Word32, n: nat)
    requires InBounds(m, cur) && RiseFits(m)
    ensures RaisedBy(m, cur, n) >= cur && InBounds(m, RaisedBy(m, cur, n))
  {
    hide Raised, RiseFits;
    if n > 0 {
      RaisingNeverLowers(m, cur, n - 1);
      RaisedIsInBounds(m, RaisedBy(m, cur, n - 1));
      HealthNeverLowersIff(m);
    }
  }

  lemma RaisedIsInBounds(m: Limits, cur: Word32)
    requires InBounds(m, cur)
    ensures InBounds(m, Raised(m, cur))
  {
  }

  // Limits too close together for any change to be worthwhile, or so small that a quarter of them is
  // nothing, keep the bitrate at the top for good.
  predicate NeverMoves(m: Limits)
  {
    m.max - m.min < m.max / 50 || m.min == m.max || m.max < 4
  }

  lemma {:induction false} StaysAtTheTop(m: Limits, h: seq<Report>)
    requires m.min <= m.max && NeverMoves(m)
    ensures Run(m, Start(m), h).cur == m.max
  {
    if h != [] {
      StaysAtTheTop(m, h[..|h| - 1]);
      TopNeverMoves(m, h[|h| - 1], Settled(Run(m, Start(m), h[..|h| - 1]), h[|h| - 1].now));
    }
  }

  lemma TopNeverMoves(m: Limits, r: Report, settled: bool)
    requires m.min <= m.max && NeverMoves(m)
    ensures !Worthwhile(m.max, Target(m, m.max, r, settled))
  {
  }

  // Quiet reports have not lowered the bitrate, and enough of them have brought it to the top.
  predicate Recovers(m: Limits, before: Word32, after: Word32, n: nat)
  {
    after >= before && (n >= 39 ==> AtTop(m, after))
  }

  // After every run, reports without loss or backlog, more than two seconds after the last one with
  // either, never lower the bitrate, and 39 of them or more bring it back to the top: exactly unless
  // the rise can wrap or is nothing, with limits between which the bitrate does move.
  lemma QuietRestoresTheTopIff(m: Limits)
    requires m.min <= m.max
    ensures (forall h, g | Quiet(h, g) :: Recovers(m, Run(m, Start(m), h).cur, Run(m, Start(m), h + g).cur, |g|))
            <==> NeverMoves(m) || (RiseFits(m) && m.max >= 20)
  {
    if NeverMoves(m) || (RiseFits(m) && m.max >= 20) {
      forall h, g | Quiet(h, g) ensures Recovers(m, Run(m, Start(m), h).cur, Run(m, Start(m), h + g).cur, |g|) {
        QuietRecovers(m, h, g);
      }
    } else {
      hide Run, Recovers, Quiet;
      var h, g := DoesNotRecover(m);
      assert Quiet(h, g) && !Recovers(m, Run(m, Start(m), h).cur, Run(m, Start(m), h + g).cur, |g|);
    }
  }

  lemma DoesNotRecover(m: Limits) returns (h: seq<Report>, g: seq<Report>)
    requires m.min <= m.max && !NeverMoves(m) && (!RiseFits(m) || m.max < 20)
    ensures Quiet(h, g) && !Recovers(m, Run(m, Start(m), h).cur, Run(m, Start(m), h + g).cur, |g|)
  {
    if !RiseFits(m) {
      h, g := [], [Report(0, 0, 3_000_000)];
      QuietRunRaises(m, h, g);
      assert RaisedBy(m, m.max, 1) == Raised(m, RaisedBy(m, m.max, 0));
      TopFalls(m);
    } else {
      h, g := [Report(5, 0, 1)], seq(RISE_REPORTS, _ => Report(0, 0, 3_000_000));
      SmallCeilingFalls(m, h[0]);
      assert h[..0] == [];
      assert LastTrouble(h) == 1;
      QuietRunRaises(m, h, g);
      StaysInBounds(m, h);
      TinyCeilingHoldsStill(m, Run(m, Start(m), h).cur, RISE_REPORTS);
    }
  }

  lemma QuietRecovers(m: Limits, h: seq<Report>, g: seq<Report>)
    requires m.min <= m.max && Quiet(h, g)
    requires NeverMoves(m) || (RiseFits(m) && m.max >= 20)
    ensures Recovers(m, Run(m, Start(m), h).cur, Run(m, Start(m), h + g).cur, |g|)
  {
    hide Run, RaisedBy;
    if NeverMoves(m) {
      StaysAtTheTop(m, h);
      StaysAtTheTop(m, h + g);
    } else {
      StaysInBounds(m, h);
      QuietRunRaises(m, h, g);
      RaisingNeverLowers(m, Run(m, Start(m), h).cur, |g|);
      if |g| >= RISE_REPORTS { EnoughRises(m, Run(m, Start(m), h).cur, |g|); }
    }
  }

  // From the top a rise that wraps is a fall.
  lemma TopFalls(m: Limits)
    requires m.min <= m.max && !RiseFits(m) && m.max - m.min >= m.max / 50
    ensures Raised(m, m.max) < m.max
  {
    assert U32(m.max + m.max / 20) == m.max + m.max / 20 - TWO32;
  }

  lemma SmallCeilingFalls(m: Limits, r: Report)
    requires m.min < m.max < 20 && m.max >= 4 && Severe(r)
    ensures Applied(m, Start(m), r).cur < m.max
  {
  }

  lemma {:induction false} TinyCeilingHoldsStill(m: Limits, cur: Word32, n: nat)
    requires InBounds(m, cur) && m.max < 20
    ensures RaisedBy(m, cur, n) == cur
  {
    hide Raised;
    if n > 0 {
      TinyCeilingHoldsStill(m, cur, n - 1);
      TinyCeilingStep(m, cur);
    }
  }

  lemma TinyCeilingStep(m: Limits, cur: Word32)
    requires InBounds(m, cur) && m.max < 20
    ensures Raised(m, cur) == cur
  {
    assert m.max / 20 == 0;
  }

  // ---------------------------------------------------------------------------------------------
  // Falling under heavy loss.

  function Lowered(m: Limits, cur: Word32): Word32
  {
    Moved(cur, Clamped(m, cur - cur / 4))
  }

  function LoweredBy(m: Limits, cur: Word32, n: nat): Word32
  {
    if n == 0 then cur else Lowered(m, LoweredBy(m, cur, n - 1))
  }

  lemma {:induction false} SevereRunLowers(m: Limits, s: Rate, h: seq<Report>)
    requires forall i | 0 <= i < |h| :: Severe(h[i])
    ensures Run(m, s, h).cur == LoweredBy(m, s.cur, |h|)
  {
    hide Applied, Lowered, Severe;
    if h != [] {
      SevereRunLowers(m, s, h[..|h| - 1]);
      assert Severe(h[|h| - 1]);
      SevereReportLowers(m, Run(m, s, h[..|h| - 1]), h[|h| - 1]);
    }
  }

  lemma SevereReportLowers(m: Limits, s: Rate, r: Report)
    requires Severe(r)
    ensures Applied(m, s, r).cur == Lowered(m, s.cur)
  {
    hide Clamped, Worthwhile;
  }

  predicate AtBottom(m: Limits, cur: Word32) { cur == m.min || cur - m.min < cur / 50 }

  // One fall either reaches the bottom or takes a quarter off.
  lemma OneFall(m: Limits, cur: Word32)
    requires InBounds(m, cur)
    ensures InBounds(m, Lowered(m, cur))
    ensures AtBottom(m, cur) ==> Lowered(m, cur) == cur
    ensures AtBottom(m, Lowered(m, cur)) || Lowered(m, cur) == cur - cur / 4
  {
  }

  function Half(n: nat, k: nat): nat
  {
    if k == 0 then n else Half(n, k - 1) / 2
  }

  // Three falls halve what lies above three bits a second.
  lemma ThreeFallsHalve(m: Limits, cur: Word32, h: nat)
    requires InBounds(m, cur) && (AtBottom(m, cur) || cur <= 3 + h)
    ensures var low := Lowered(m, Lowered(m, Lowered(m, cur)));
            InBounds(m, low) && (AtBottom(m, low) || low <= 3 + h / 2)
  {
    hide Lowered, AtBottom;
    var a := Lowered(m, cur);
    var b := Lowered(m, a);
    OneFall(m, cur);
    OneFall(m, a);
    OneFall(m, b);
  }

  // After n reports of heavy loss, no more than h above three.
  ghost predicate FallenTo(m: Limits, cur: Word32, n: nat, h: nat)
  {
    var low := LoweredBy(m, cur, n);
    InBounds(m, low) && (AtBottom(m, low) || low <= 3 + h)
  }

  lemma ThreeFallsMore(m: Limits, cur: Word32, n: nat, h: nat)
    requires FallenTo(m, cur, n, h)
    ensures FallenTo(m, cur, n + 3, h / 2)
  {
    hide Lowered, AtBottom, InBounds, LoweredBy;
    ThreeFallsHalve(m, LoweredBy(m, cur, n), h);
    ThreeMore(m, cur, n);
  }

  lemma {:induction false} FallsHalve(m: Limits, cur: Word32, k: nat)
    requires InBounds(m, cur)
    ensures FallenTo(m, cur, 3 * k, Half(cur, k))
  {
    if k > 0 {
      hide FallenTo, InBounds, Half;
      FallsHalve(m, cur, k - 1);
      ThreeFallsMore(m, cur, 3 * (k - 1), Half(cur, k - 1));
      HalfStep(cur, k);
    }
  }

  lemma HalfStep(n: nat, k: nat)
    requires k > 0
    ensures Half(n, k) == Half(n, k - 1) / 2
  {
  }

  lemma ThreeMore(m: Limits, cur: Word32, n: nat)
    ensures LoweredBy(m, cur, n + 3) == Lowered(m, Lowered(m, Lowered(m, LoweredBy(m, cur, n))))
  {
    hide Lowered;
    assert LoweredBy(m, cur, n + 2) == Lowered(m, LoweredBy(m, cur, n + 1));
  }

  lemma {:induction false} HalvedAway(n: nat, k: nat, bound: nat)
    requires n < bound && bound == Power2(k)
    ensures Half(n, k) == 0
  {
    if k > 0 {
      HalvedOnce(n, k);
      HalvedAway(n / 2, k - 1, Power2(k - 1));
    }
  }

  lemma {:induction false} HalvedOnce(n: nat, k: nat)
    requires k > 0
    ensures Half(n, k) == Half(n / 2, k - 1)
  {
    if k > 1 {
      HalvedOnce(n, k - 1);
    }
  }

  function Power2(k: nat): nat
  {
    if k == 0 then 1 else 2 * Power2(k - 1)
  }

  const FALL_REPORTS: nat := 96

  lemma {:induction false} BottomIsReached(m: Limits, cur: Word32, n: nat)
    requires InBounds(m, cur) && (m.min >= 3 || m.min == m.max) && n >= FALL_REPORTS
    ensures AtBottom(m, LoweredBy(m, cur, n)) && InBounds(m, LoweredBy(m, cur, n))
    decreases n
  {
    if n == FALL_REPORTS {
      FallsHalve(m, cur, 32);
      PowerOf32();
      HalvedAway(cur, 32, TWO32);
    } else {
      hide Lowered, AtBottom;
      BottomIsReached(m, cur, n - 1);
      OneFall(m, LoweredBy(m, cur, n - 1));
    }
  }

  lemma {:induction false} NeverBelowThree(m: Limits, cur: Word32, n: nat)
    requires InBounds(m, cur)
    ensures LoweredBy(m, cur, n) >= Min(cur, 3)
  {
    if n > 0 {
      NeverBelowThree(m, cur, n - 1);
      hide LoweredBy;
    }
  }

  // After every run, 96 reports of heavy loss or backlog or more bring the bitrate to the floor: exactly
  // unless the floor lies below three bits a second, where a quarter of the bitrate is nothing.
  lemma LossReachesTheFloorIff(m: Limits)
    requires m.min <= m.max
    ensures (forall h, g | |g| >= 96 && AllSevere(g) :: AtBottom(m, Run(m, Start(m), h + g).cur))
            <==> m.min >= 3 || m.min == m.max
  {
    if m.min >= 3 || m.min == m.max {
      forall h, g | |g| >= FALL_REPORTS && AllSevere(g) ensures AtBottom(m, Run(m, Start(m), h + g).cur) {
        hide Run, LoweredBy, AtBottom;
        StaysInBounds(m, h);
        RunGoesOn(m, Start(m), h, g);
        SevereRunLowers(m, Run(m, Start(m), h), g);
        BottomIsReached(m, Run(m, Start(m), h).cur, |g|);
      }
    } else {
      var g := seq(FALL_REPORTS, _ => Report(5, 0, 1));
      assert [] + g == g;
      SevereRunLowers(m, Start(m), g);
      NeverBelowThree(m, m.max, FALL_REPORTS);
      StaysInBounds(m, g);
      assert AllSevere(g) && !AtBottom(m, Run(m, Start(m), [] + g).cur);
    }
  }

  ghost predicate AllSevere(g: seq<Report>)
  {
    forall i | 0 <= i < |g| :: g[i].lossPct >= 5 || g[i].frameAgeMs >= 400
  }

  lemma PowerOf32()
    ensures Power2(32) == TWO32
  {
    assert Power2(8) == 256;
    assert Power2(16) == 256 * 256;
    assert Power2(24) == 256 * 256 * 256;
  }

  // ---------------------------------------------------------------------------------------------
  // Falling under moderate loss, a tenth at a time.

  function Eased(m: Limits, cur: Word32): Word32
  {
    Moved(cur, Clamped(m, cur - cur / 10))
  }

  function EasedBy(m: Limits, cur: Word32, n: nat): Word32
  {
    if n == 0 then cur else Eased(m, EasedBy(m, cur, n - 1))
  }

  ghost predicate AllMild(g: seq<Report>)
  {
    forall i | 0 <= i < |g| ::
      g[i].lossPct < 5 && g[i].frameAgeMs < 400 && (g[i].lossPct >= 2 || g[i].frameAgeMs >= 150)
  }

  lemma {:induction false} MildRunEases(m: Limits, s: Rate, g: seq<Report>)
    requires AllMild(g)
    ensures Run(m, s, g).cur == EasedBy(m, s.cur, |g|)
  {
    hide Applied, Eased;
    if g != [] {
      var front, r := g[..|g| - 1], g[|g| - 1];
      MildRunEases(m, s, front);
      assert r.lossPct < 5 && r.frameAgeMs < 400 && (r.lossPct >= 2 || r.frameAgeMs >= 150);
      MildReportEases(m, Run(m, s, front), r);
    }
  }

  lemma MildReportEases(m: Limits, s: Rate, r: Report)
    requires r.lossPct < 5 && r.frameAgeMs < 400 && (r.lossPct >= 2 || r.frameAgeMs >= 150)
    ensures Applied(m, s, r).cur == Eased(m, s.cur)
  {
    hide Clamped, Worthwhile;
  }

  lemma OneEasing(m: Limits, cur: Word32)
    requires InBounds(m, cur)
    ensures InBounds(m, Eased(m, cur))
    ensures AtBottom(m, cur) ==> Eased(m, cur) == cur
    ensures AtBottom(m, Eased(m, cur)) || Eased(m, cur) == cur - cur / 10
  {
  }

  // After n such reports, no more than h above nine.
  ghost predicate EasedTo(m: Limits, cur: Word32, n: nat, h: nat)
  {
    var low := EasedBy(m, cur, n);
    InBounds(m, low) && (AtBottom(m, low) || low <= 9 + h)
  }

  lemma OneEasingMore(m: Limits, cur: Word32, n: nat, h: nat)
    requires EasedTo(m, cur, n, h)
    ensures EasedTo(m, cur, n + 1, h * 9 / 10)
  {
    hide Eased, AtBottom;
    OneEasing(m, EasedBy(m, cur, n));
  }

  // Seven easings halve what lies above nine bits a second.
  lemma SevenEasings(h: nat)
    ensures h * 9 / 10 * 9 / 10 * 9 / 10 * 9 / 10 * 9 / 10 * 9 / 10 * 9 / 10 <= h / 2
  {
    var a := h * 9 / 10;
    var b := a * 9 / 10;
    var c := b * 9 / 10;
    var d := c * 9 / 10;
    var e := d * 9 / 10;
    var f := e * 9 / 10;
    assert 10 * a <= 9 * h && 10 * b <= 9 * a && 10 * c <= 9 * b && 10 * d <= 9 * c;
    assert 10_000 * d <= 6_561 * h;
    assert 10 * e <= 9 * d && 10 * f <= 9 * e;
  }

  lemma SevenEasingsHalve(m: Limits, cur: Word32, n: nat, h: nat)
    requires EasedTo(m, cur, n, h)
    ensures EasedTo(m, cur, n + 7, h / 2)
  {
    hide EasedTo;
    OneEasingMore(m, cur, n, h);
    OneEasingMore(m, cur, n + 1, h * 9 / 10);
    OneEasingMore(m, cur, n + 2, h * 9 / 10 * 9 / 10);
    OneEasingMore(m, cur, n + 3, h * 9 / 10 * 9 / 10 * 9 / 10);
    OneEasingMore(m, cur, n + 4, h * 9 / 10 * 9 / 10 * 9 / 10 * 9 / 10);
    OneEasingMore(m, cur, n + 5, h * 9 / 10 * 9 / 10 * 9 / 10 * 9 / 10 * 9 / 10);
    OneEasingMore(m, cur, n + 6, h * 9 / 10 * 9 / 10 * 9 / 10 * 9 / 10 * 9 / 10 * 9 / 10);
    SevenEasings(h);
    EasedLower(m, cur, n + 7, h * 9 / 10 * 9 / 10 * 9 / 10 * 9 / 10 * 9 / 10 * 9 / 10 * 9 / 10, h / 2);
  }

  lemma EasedLower(m: Limits, cur: Word32, n: nat, h: nat, k: nat)
    requires EasedTo(m, cur, n, h) && h <= k
    ensures EasedTo(m, cur, n, k)
  {
  }

  lemma {:induction false} EasingsHalve(m: Limits, cur: Word32, k: nat)
    requires InBounds(m, cur)
    ensures EasedTo(m, cur, 7 * k, Half(cur, k))
  {
    if k > 0 {
      hide EasedTo, InBounds, Half;
      EasingsHalve(m, cur, k - 1);
      SevenEasingsHalve(m, cur, 7 * (k - 1), Half(cur, k - 1));
      HalfStep(cur, k);
    }
  }

  lemma {:induction false} BottomIsReachedGently(m: Limits, cur: Word32, n: nat)
    requires InBounds(m, cur) && (m.min >= 9 || m.min == m.max) && n >= 224
    ensures AtBottom(m, EasedBy(m, cur, n)) && InBounds(m, EasedBy(m, cur, n))
    decreases n
  {
    if n == 224 {
      EasingsHalve(m, cur, 32);
      PowerOf32();
      HalvedAway(cur, 32, TWO32);
    } else {
      hide Eased, AtBottom;
      BottomIsReachedGently(m, cur, n - 1);
      OneEasing(m, EasedBy(m, cur, n - 1));
    }
  }

  lemma {:induction false} NeverBelowNine(m: Limits, cur: Word32, n: nat)
    requires InBounds(m, cur)
    ensures EasedBy(m, cur, n) >= Min(cur, 9)
  {
    if n > 0 {
      NeverBelowNine(m, cur, n - 1);
      hide EasedBy;
    }
  }

  // After every run, 224 reports of moderate loss or backlog or more bring the bitrate to the floor: exactly
  // unless the floor lies below nine bits a second, where a tenth of the bitrate is nothing.
  lemma MildLossReachesTheFloorIff(m: Limits)
    requires m.min <= m.max
    ensures (forall h, g | |g| >= 224 && AllMild(g) :: AtBottom(m, Run(m, Start(m), h + g).cur))
            <==> m.min >= 9 || m.min == m.max
  {
    if m.min >= 9 || m.min == m.max {
      forall h, g | |g| >= 224 && AllMild(g) ensures AtBottom(m, Run(m, Start(m), h + g).cur) {
        hide Run, EasedBy, AtBottom;
        StaysInBounds(m, h);
        RunGoesOn(m, Start(m), h, g);
        MildRunEases(m, Run(m, Start(m), h), g);
        BottomIsReachedGently(m, Run(m, Start(m), h).cur, |g|);
      }
    } else {
      var g := seq(224, _ => Report(2, 0, 1));
      assert [] + g == g;
      MildRunEases(m, Start(m), g);
      NeverBelowNine(m, m.max, 224);
      StaysInBounds(m, g);
      assert AllMild(g) && !AtBottom(m, Run(m, Start(m), [] + g).cur);
    }
  }
}
