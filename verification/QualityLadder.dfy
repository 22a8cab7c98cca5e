// QualityLadder: picture size and frame rate that follow the bitrate, down at once and up slowly.
module QualityLadders {
  import opened Machine

  datatype Rung = Rung(scalePct: nat, fps: nat)

  const RUNGS: seq<Rung> := [Rung(100, 60), Rung(100, 30), Rung(100, 20), Rung(75, 20), Rung(50, 20), Rung(50, 12)]
  const MIN_WIDTH: int := 160
  const MIN_HEIGHT: int := 64
  const BPP_NUM: int := 8
  const BPP_DEN: int := 100
  const UP_HEADROOM_PCT: int := 120
  const UP_DWELL_US: int := 5_000_000
  const UP_DWELL_RESIZE_US: int := 15_000_000

  type Byte8 = b: int | 1 <= b < 0x100 witness 60
  type Size16 = v: int | 0 <= v < 0x1_0000

  // What the user allows; a rate of 0 has become 60 already.
  datatype Ceiling = Ceiling(width: Size16, height: Size16, fps: Byte8)

  datatype Step = Step(width: nat, height: nat, fps: nat, scalePct: nat)

  function ScaleEven(v: Size16, pct: nat): (s: nat)
    requires pct <= 100
    ensures s <= v && s % 2 == 0
  {
    ScaleIsSmaller(v, pct);
    EvenPart(v * pct / 100)
  }

  function EvenPart(n: nat): (e: nat)
    ensures e <= n && e % 2 == 0
  {
    n / 2 * 2
  }

  lemma ScaleIsSmaller(v: nat, pct: nat)
    requires pct <= 100
    ensures 0 <= v * pct / 100 <= v
  {
    assert v * 100 == v * pct + v * (100 - pct);
  }

  function StepAt(c: Ceiling, rung: int): (s: Step)
    ensures s.width <= c.width && s.height <= c.height && s.fps <= 60
  {
    var r := RUNGS[if rung < 0 then 0 else if rung >= 6 then 5 else rung];
    Step(ScaleEven(c.width, r.scalePct), ScaleEven(c.height, r.scalePct), Min(r.fps, c.fps), r.scalePct)
  }

  predicate TooSmall(s: Step)
  {
    s.width < MIN_WIDTH || s.height < MIN_HEIGHT
  }

  // The constructor's count: distinct steps from rung i on, until one is too small.
  function CountFrom(c: Ceiling, i: nat, prev: Step, count: nat): (n: nat)
    requires i <= 6
    ensures count <= n <= count + (6 - i)
    decreases 6 - i
  {
    if i == 6 then count
    else
      var s := StepAt(c, i);
      if i > 0 && s == prev then CountFrom(c, i + 1, prev, count)
      else if i > 0 && TooSmall(s) then count
      else CountFrom(c, i + 1, s, count + 1)
  }

  // One turn of the count.
  lemma CountStep(c: Ceiling, i: nat, prev: Step, count: nat)
    requires i < 6
    ensures var s := StepAt(c, i);
            CountFrom(c, i, prev, count) ==
              if i > 0 && s == prev then CountFrom(c, i + 1, prev, count)
              else if i > 0 && TooSmall(s) then count
              else CountFrom(c, i + 1, s, count + 1)
    ensures CountFrom(c, 6, prev, count) == count
  {
    hide StepAt, TooSmall;
  }

  const NO_STEP := Step(0, 0, 0, 100)

  function Count(c: Ceiling): (n: nat)
    ensures 1 <= n <= 6
  {
    CountFrom(c, 0, NO_STEP, 0)
  }

  // The count so far and what is still to be counted make the whole.
  ghost predicate Counting(c: Ceiling, i: nat, prev: Step, count: nat)
    requires i <= 6
  {
    CountFrom(c, i, prev, count) == Count(c)
  }

  lemma CountBegins(c: Ceiling)
    ensures Counting(c, 0, NO_STEP, 0)
  {
  }

  lemma CountTurn(c: Ceiling, i: nat, prev: Step, count: nat)
    requires i < 6 && Counting(c, i, prev, count)
    ensures var s := StepAt(c, i);
            if i > 0 && s == prev then Counting(c, i + 1, prev, count)
            else if i > 0 && TooSmall(s) then count == Count(c)
            else Counting(c, i + 1, s, count + 1)
  {
    hide StepAt, TooSmall, CountFrom, Count;
    CountStep(c, i, prev, count);
  }

  lemma CountEnds(c: Ceiling, prev: Step, count: nat)
    ensures Counting(c, 6, prev, count) ==> count == Count(c)
  {
    hide StepAt, TooSmall, CountFrom, Count;
    CountStep(c, 0, prev, count);
  }

  // The bits a second a step needs, before and after the conversion to 32 bits.
  function ExactBps(c: Ceiling, rung: int): nat
  {
    var s := StepAt(c, rung);
    Area(s) * s.fps * BPP_NUM / BPP_DEN
  }

  function Area(s: Step): nat
  {
    s.width * s.height
  }

  function RequiredBps(c: Ceiling, rung: int): Word32
  {
    U32(ExactBps(c, rung))
  }

  function BestFrom(c: Ceiling, bps: Word32, i: nat): (r: nat)
    requires i <= Count(c)
    ensures r < Count(c)
    decreases Count(c) - i
  {
    if i == Count(c) then Count(c) - 1
    else if bps >= RequiredBps(c, i) then i
    else BestFrom(c, bps, i + 1)
  }

  // The bitrate with headroom that a step up to this rung asks for.
  function Need(c: Ceiling, rung: int): nat
  {
    RequiredBps(c, rung) * UP_HEADROOM_PCT / 100
  }

  function Dwell(c: Ceiling, rung: int): int
  {
    var cand, step := StepAt(c, rung - 1), StepAt(c, rung);
    if cand.width != step.width || cand.height != step.height then UP_DWELL_RESIZE_US else UP_DWELL_US
  }

  // The fields that Update changes.
  datatype Ladder = Ladder(rung: int, step: Step, lastChange: Word64, upSince: Word64)

  function Start(c: Ceiling): Ladder
  {
    Ladder(0, StepAt(c, 0), 0, 0)
  }

  function Updated(c: Ceiling, l: Ladder, bps: Word32, now: Word64): Ladder
  {
    var want := BestFrom(c, bps, 0);
    if want > l.rung then Ladder(want, StepAt(c, want), now, 0)
    else if l.rung == 0 || bps < Need(c, l.rung - 1) then l.(upSince := 0)
    else if l.upSince == 0 then l.(upSince := now)
    else
      var cand := StepAt(c, l.rung - 1);
      var resize := cand.width != l.step.width || cand.height != l.step.height;
      var dwell := if resize then UP_DWELL_RESIZE_US else UP_DWELL_US;
      if U64(now - l.upSince) < dwell || U64(now - l.lastChange) < dwell then l
      else Ladder(l.rung - 1, cand, now, 0)
  }

  // The constructor's loop.
  method CountSteps(c: Ceiling) returns (count: nat)
    ensures count == Count(c)
  {
    CountBegins(c);
    hide StepAt, CountFrom, TooSmall, Count, Counting;
    var prev := NO_STEP;
    count := 0;
    var i := 0;
    while i < 6
      invariant 0 <= i <= 6
      invariant Counting(c, i, prev, count)
    {
      var s := StepAt(c, i);
      CountTurn(c, i, prev, count);
      if i > 0 {
        if s == prev {
          i := i + 1;
          continue;
        }
        if TooSmall(s) {
          return;
        }
      }
      prev := s;
      count := count + 1;
      i := i + 1;
    }
    CountEnds(c, prev, count);
  }

  class QualityLadder {
    const ceiling: Ceiling
    var count: nat
    var rung: int
    var step: Step
    var lastChangeUs: Word64
    var upSinceUs: Word64

    ghost predicate Valid()
      reads this
    {
      count == Count(ceiling) && 0 <= rung < count && step == StepAt(ceiling, rung)
    }

    ghost function State(): Ladder
      reads this
    {
      Ladder(rung, step, lastChangeUs, upSinceUs)
    }

    constructor (maxW: Size16, maxH: Size16, maxFps: Byte)
      ensures ceiling == Ceiling(maxW, maxH, if maxFps == 0 then 60 else maxFps)
      ensures Valid() && State() == Start(ceiling)
    {
      var c := Ceiling(maxW, maxH, if maxFps == 0 then 60 else maxFps);
      var steps := CountSteps(c);
      ceiling, count := c, steps;
      rung, lastChangeUs, upSinceUs := 0, 0, 0;
      step := StepAt(c, 0);
    }

    method BestRungFor(bps: Word32) returns (best: nat)
      requires Valid()
      ensures best == BestFrom(ceiling, bps, 0)
    {
      var i := 0;
      while i < count
        invariant 0 <= i <= count
        invariant BestFrom(ceiling, bps, 0) == BestFrom(ceiling, bps, i)
      {
        if bps >= RequiredBps(ceiling, i) {
          return i;
        }
        i := i + 1;
      }
      return count - 1;
    }

    method Update(bps: Word32, now: Word64) returns (changed: bool)
      requires Valid()
      modifies this
      ensures Valid()
      ensures State() == Updated(ceiling, old(State()), bps, now)
      ensures changed == (rung != old(rung))
    {
      hide StepAt, BestFrom, RequiredBps, Need;
      var want := BestRungFor(bps);
      if want > rung {
        rung := want;
        step := StepAt(ceiling, rung);
        lastChangeUs := now;
        upSinceUs := 0;
        return true;
      }
      if rung == 0 {
        upSinceUs := 0;
        return false;
      }
      var next := rung - 1;
      if bps < Need(ceiling, next) {
        upSinceUs := 0;
        return false;
      }
      if upSinceUs == 0 {
        upSinceUs := now;
        return false;
      }
      var cand := StepAt(ceiling, next);
      var resize := cand.width != step.width || cand.height != step.height;
      var dwell := if resize then UP_DWELL_RESIZE_US else UP_DWELL_US;
      if U64(now - upSinceUs) < dwell {
        return false;
      }
      if U64(now - lastChangeUs) < dwell {
        return false;
      }
      rung := next;
      step := cand;
      lastChangeUs := now;
      upSinceUs := 0;
      return true;
    }
  }

  // ---------------------------------------------------------------------------------------------
  // The steps.

  lemma SmallerScaleIsSmaller(v: Size16, p: nat, q: nat)
    requires p <= q <= 100
    ensures ScaleEven(v, p) <= ScaleEven(v, q)
  {
    ProductsShrink(v, p, v, q);
    ScalingKeepsOrder(v * p, v * q);
  }

  lemma ScalingKeepsOrder(a: nat, b: nat)
    requires a <= b
    ensures a / 100 / 2 * 2 <= b / 100 / 2 * 2
  {
  }

  lemma StepsShrink(c: Ceiling, a: nat, b: nat)
    requires a <= b < 6
    ensures StepAt(c, b).width <= StepAt(c, a).width && StepAt(c, b).height <= StepAt(c, a).height
    ensures StepAt(c, b).fps <= StepAt(c, a).fps
  {
    assert RUNGS[b].scalePct <= RUNGS[a].scalePct && RUNGS[b].fps <= RUNGS[a].fps;
    SmallerScaleIsSmaller(c.width, RUNGS[b].scalePct, RUNGS[a].scalePct);
    SmallerScaleIsSmaller(c.height, RUNGS[b].scalePct, RUNGS[a].scalePct);
  }

  // Counting goes on only as long as the rungs passed over are big enough.
  lemma {:induction false} CountedAreBig(c: Ceiling, i: nat, prev: Step, count: nat, r: nat)
    requires 0 < i <= 6 && count <= i
    requires count <= r < CountFrom(c, i, prev, count)
    ensures !TooSmall(StepAt(c, r))
    decreases 6 - i
  {
    hide StepAt, CountFrom;
    CountStep(c, 0, prev, count);
    if i < 6 {
      var s := StepAt(c, i);
      CountStep(c, i, prev, count);
      if s == prev {
        CountedAreBig(c, i + 1, prev, count, r);
      } else if r == count {
        StepsShrink(c, r, i);
      } else {
        CountedAreBig(c, i + 1, s, count + 1, r);
      }
    }
  }

  // Every rung below the top that the ladder can stand on is at least 160 by 64, whatever the
  // ceiling; this holds although the rungs are indexed by a count of distinct steps.
  lemma LowerRungsAreEncodable(c: Ceiling, r: nat)
    requires 0 < r < Count(c)
    ensures StepAt(c, r).width >= 160 && StepAt(c, r).height >= 64
  {
    CountedAreBig(c, 1, StepAt(c, 0), 1, r);
  }

  // Behind the last rung that is big enough nothing is counted.
  lemma {:induction false} CountStops(c: Ceiling, i: nat, prev: Step, count: nat, last: nat)
    requires 0 < i <= 6 && last < 6
    requires forall r | last < r < 6 :: TooSmall(StepAt(c, r))
    ensures CountFrom(c, i, prev, count) <= count + if i <= last then last + 1 - i else 0
    decreases 6 - i
  {
    hide StepAt, CountFrom, TooSmall;
    CountStep(c, 0, prev, count);
    if i < 6 {
      CountStep(c, i, prev, count);
      CountStops(c, i + 1, prev, count, last);
      CountStops(c, i + 1, StepAt(c, i), count + 1, last);
    }
  }

  // Without repeats every rung that is big enough is counted.
  lemma {:induction false} CountGoesOn(c: Ceiling, i: nat, r: nat)
    requires c.fps > 30 && 0 < i <= r < 6 && !TooSmall(StepAt(c, r))
    ensures r < CountFrom(c, i, StepAt(c, i - 1), i)
    decreases 6 - i
  {
    NeighboursDiffer(c, i);
    StepsShrink(c, i, r);
    hide StepAt, CountFrom;
    CountStep(c, i, StepAt(c, i - 1), i);
    if i < r { CountGoesOn(c, i + 1, r); }
  }

  lemma NeighboursDiffer(c: Ceiling, i: nat)
    requires c.fps > 30 && 0 < i < 6
    ensures StepAt(c, i) != StepAt(c, i - 1)
  {
    hide ScaleEven;
  }

  // The last rung that is big enough.
  lemma {:induction false} LastBig(c: Ceiling, from: nat) returns (last: nat)
    requires from < 6 && !TooSmall(StepAt(c, from))
    ensures from <= last < 6 && !TooSmall(StepAt(c, last)) && forall r | last < r < 6 :: TooSmall(StepAt(c, r))
    decreases 6 - from
  {
    hide StepAt, TooSmall;
    last := from;
    if r :| from < r < 6 && !TooSmall(StepAt(c, r)) {
      last := LastBig(c, r);
    }
  }

  // Distinct steps are counted but rungs are indexed, so not every rung that is big enough can be
  // stood on: exactly when a ceiling of 30 frames a second or fewer makes the second rung repeat the
  // first and that one is big enough.
  lemma EncodableRungsAreInRangeIff(c: Ceiling)
    ensures (forall r | 0 <= r < 6 && StepAt(c, r).width >= 160 && StepAt(c, r).height >= 64 :: r < Count(c))
            <==> c.fps > 30 || StepAt(c, 1).width < 160 || StepAt(c, 1).height < 64
  {
    FirstStepsRepeat(c);
    hide StepAt, CountFrom;
    var first := StepAt(c, 0);
    CountStep(c, 0, NO_STEP, 0);
    forall r | 0 < r < 6 && !TooSmall(StepAt(c, r)) ensures !TooSmall(StepAt(c, 1)) && (c.fps > 30 ==> r < Count(c)) {
      StepsShrink(c, 1, r);
      if c.fps > 30 { CountGoesOn(c, 1, r); }
    }
    if c.fps <= 30 && !TooSmall(StepAt(c, 1)) {
      var last := LastBig(c, 2);
      CountStep(c, 1, first, 1);
      CountStops(c, 2, first, 1, last);
      assert !TooSmall(StepAt(c, last)) && last >= Count(c);
    }
  }

  lemma FirstStepsRepeat(c: Ceiling)
    ensures c.fps <= 30 ==> StepAt(c, 1) == StepAt(c, 0)
    ensures TooSmall(StepAt(c, 2)) == TooSmall(StepAt(c, 1))
  {
    hide ScaleEven;
  }

  // One such ceiling, and the rung that is out of reach there.
  lemma LastRungCanBeOutOfReach()
    ensures Count(Ceiling(1920, 1080, 30)) == 5 && !TooSmall(StepAt(Ceiling(1920, 1080, 30), 5))
  {
    StepsAtThirty();
    hide StepAt;
    var c := Ceiling(1920, 1080, 30);
    assert CountFrom(c, 6, StepAt(c, 5), 5) == 5;
    assert CountFrom(c, 5, StepAt(c, 4), 4) == 5;
    assert CountFrom(c, 4, StepAt(c, 3), 3) == 5;
    assert CountFrom(c, 3, StepAt(c, 2), 2) == 5;
    assert CountFrom(c, 2, StepAt(c, 0), 1) == 5;
  }

  lemma StepsAtThirty()
    ensures var c := Ceiling(1920, 1080, 30);
            && StepAt(c, 0) == Step(1920, 1080, 30, 100)
            && StepAt(c, 1) == Step(1920, 1080, 30, 100)
            && StepAt(c, 2) == Step(1920, 1080, 20, 100)
            && StepAt(c, 3) == Step(1440, 810, 20, 75)
            && StepAt(c, 4) == Step(960, 540, 20, 50)
            && StepAt(c, 5) == Step(960, 540, 12, 50)
  {
  }

  lemma ProductsShrink(a: nat, b: nat, x: nat, y: nat)
    requires a <= x && b <= y
    ensures a * b <= x * y
  {
    assert x * y == a * b + (x - a) * b + x * (y - b);
  }

  lemma ExactNeverGrows(c: Ceiling, a: nat, b: nat)
    requires a <= b < 6
    ensures ExactBps(c, b) <= ExactBps(c, a)
  {
    var s, t := StepAt(c, a), StepAt(c, b);
    StepsShrink(c, a, b);
    ProductsShrink(t.width, t.height, s.width, s.height);
    ProductsShrink(Area(t), t.fps, Area(s), s.fps);
  }

  // The requirement of the top rung fits 32 bits.
  predicate Fits(c: Ceiling)
  {
    ExactBps(c, 0) < TWO32
  }

  // The conversion to 32 bits is harmless on the whole ladder exactly when the top rung fits.
  lemma NothingIsCutOffIffTopFits(c: Ceiling)
    ensures Fits(c) <==> forall r | 0 <= r < 6 :: RequiredBps(c, r) == ExactBps(c, r)
  {
    hide ExactBps;
    if Fits(c) {
      forall r | 0 <= r < 6 ensures RequiredBps(c, r) == ExactBps(c, r) {
        ExactNeverGrows(c, 0, r);
      }
    } else {
      assert RequiredBps(c, 0) != ExactBps(c, 0);
    }
  }

  // The arithmetic of a requirement: it follows the area and the rate.
  function Bps(area: nat, fps: nat): nat
  {
    area * fps * BPP_NUM / BPP_DEN
  }

  lemma BpsIsMonotone(a: nat, b: nat, f: nat, g: nat)
    requires a <= b && f <= g
    ensures Bps(a, f) <= Bps(b, g)
  {
    ProductsShrink(a, f, b, g);
  }

  // Three quarters of a size lose no more than this of it.
  lemma ThreeQuarters(v: Size16)
    ensures v - 16386 <= ScaleEven(v, 75) <= 49152
    ensures v - 1 <= ScaleEven(v, 100) <= 65534
  {
  }

  // How the areas of the first four rungs lie to one another, for any ceiling.
  lemma AreasOfTheFirstFour(c: Ceiling)
    ensures Area(StepAt(c, 1)) == Area(StepAt(c, 0)) == Area(StepAt(c, 2))
    ensures Area(StepAt(c, 0)) <= 4_294_705_156
    ensures Area(StepAt(c, 3)) <= 2_415_919_104
    ensures Area(StepAt(c, 0)) - Area(StepAt(c, 3)) <= 1_880_000_000
  {
    hide ScaleEven;
    ThreeQuarters(c.width);
    ThreeQuarters(c.height);
    var w, h := ScaleEven(c.width, 100), ScaleEven(c.height, 100);
    var v, u := ScaleEven(c.width, 75), ScaleEven(c.height, 75);
    ProductsShrink(w, h, 65534, 65534);
    ProductsShrink(v, u, 49152, 49152);
    LostArea(w, h, v, u);
  }

  lemma LostArea(w: int, h: int, v: int, u: int)
    requires 0 <= h <= 65534 && 0 <= v <= 49152 && w - v <= 16386 && h - u <= 16386
    ensures w * h - v * u <= 1_880_000_000
  {
    assert w * h - v * u == (w - v) * h + v * (h - u);
    Scaled(w - v, 16386, h);
    Scaled(h - u, 16386, v);
  }

  lemma RequiredIsBps(c: Ceiling, r: nat)
    requires r < 6
    ensures ExactBps(c, r) == Bps(Area(StepAt(c, r)), Min(RUNGS[r].fps, c.fps))
    ensures RequiredBps(c, r) == U32(ExactBps(c, r))
  {
  }

  lemma ThirdNumbers(p: nat, q: nat, n: nat, m: nat)
    requires n == p * BPP_NUM / BPP_DEN && m == q * BPP_NUM / BPP_DEN && n >= TWO32
    requires p <= 4_294_705_156 * 20 && q <= 2_415_919_104 * 20 && p - q <= 1_880_000_000 * 20
    ensures U32(m) > U32(n)
  {
    hide U32;
    assert m < TWO32 && n < 2 * TWO32 && m > n - TWO32;
    NotCutOff(m);
    OnceAround(n);
  }

  // From the third rung to the fourth, when the third needs more than 32 bits hold.
  lemma ThirdCutOff(area: nat, less: nat, f: nat)
    requires area <= 4_294_705_156 && less <= 2_415_919_104 && area - less <= 1_880_000_000 && f <= 20
    requires Bps(area, f) >= TWO32
    ensures U32(Bps(less, f)) > U32(Bps(area, f))
  {
    ProductsShrink(area, f, 4_294_705_156, 20);
    ProductsShrink(less, f, 2_415_919_104, 20);
    Scaled(area - less, 1_880_000_000, f);
    assert (area - less) * f == area * f - less * f;
    ThirdNumbers(area * f, less * f, Bps(area, f), Bps(less, f));
  }

  // From the second to the third, when only the second does.
  lemma SecondCutOff(area: nat, f: nat)
    requires f <= 30 && Bps(area, 20) < TWO32 <= Bps(area, f)
    ensures U32(Bps(area, 20)) > U32(Bps(area, f))
  {
    BpsIsMonotone(area, area, f, 30);
    RoundRates(area);
    hide Bps;
    OnceAround(Bps(area, f));
  }

  lemma RoundRates(area: nat)
    ensures Bps(area, 20) == 160 * area / 100
    ensures Bps(area, 30) == 240 * area / 100
    ensures Bps(area, 60) == 480 * area / 100
  {
  }

  lemma OnceAround(n: nat)
    requires TWO32 <= n < 2 * TWO32
    ensures U32(n) == n - TWO32
  {
  }

  lemma NotCutOff(n: nat)
    requires n < TWO32
    ensures U32(n) == n
  {
  }

  // The largest area whose 240 hundredths are below the limit misses it by more than one.
  lemma TwiceIsLess(area: nat, n: nat, twice: nat)
    requires n == 240 * area / 100 < TWO32 <= twice <= 480 * area / 100
    ensures twice - TWO32 < n
  {
    assert 240 * area < 429_496_729_600;
    assert area <= 1_789_569_706;
  }

  // And from the first to the second: twice a number below the limit passes it by less than that number.
  lemma FirstCutOff(area: nat, f: nat)
    requires f <= 60 && Bps(area, 30) < TWO32 <= Bps(area, f)
    ensures U32(Bps(area, 30)) > U32(Bps(area, f))
  {
    BpsIsMonotone(area, area, f, 60);
    RoundRates(area);
    hide Bps, U32;
    TwiceIsLess(area, Bps(area, 30), Bps(area, f));
    OnceAround(Bps(area, f));
    NotCutOff(Bps(area, 30));
  }

  // Where the top rung does not fit, one of the next three seems to need more than the one above it.
  lemma GrowsSomewhere(c: Ceiling) returns (r: nat)
    requires !Fits(c)
    ensures 0 < r < 4 && RequiredBps(c, r) > RequiredBps(c, r - 1)
  {
    hide ExactBps, RequiredBps, StepAt, Bps, U32;
    AreasOfTheFirstFour(c);
    var area, f := Area(StepAt(c, 0)), c.fps;
    RequiredIsBps(c, 0);
    RequiredIsBps(c, 1);
    RequiredIsBps(c, 2);
    RequiredIsBps(c, 3);
    if Bps(area, Min(20, f)) >= TWO32 {
      ThirdCutOff(area, Area(StepAt(c, 3)), Min(20, f));
      r := 3;
    } else if Bps(area, Min(30, f)) >= TWO32 {
      SecondCutOff(area, Min(30, f));
      r := 2;
    } else {
      FirstCutOff(area, Min(60, f));
      r := 1;
    }
  }

  // What is required, as the ladder computes it, never grows with the rung: exactly when the top rung
  // fits 32 bits.
  lemma RequiredNeverGrowsIff(c: Ceiling)
    ensures (forall a, b | 0 <= a <= b < 6 :: RequiredBps(c, b) <= RequiredBps(c, a)) <==> Fits(c)
  {
    hide RequiredBps, ExactBps;
    if Fits(c) {
      NothingIsCutOffIffTopFits(c);
      forall a, b | 0 <= a <= b < 6 ensures RequiredBps(c, b) <= RequiredBps(c, a) {
        ExactNeverGrows(c, a, b);
      }
    } else {
      var r := GrowsSomewhere(c);
      assert RequiredBps(c, r) > RequiredBps(c, r - 1);
    }
  }

  // The largest size is such a case: its third rung seems to need more than its second.
  lemma RequiredCanGrow()
    ensures var c := Ceiling(0xFFFF, 0xFFFF, 60);
            !Fits(c) && RequiredBps(c, 2) > RequiredBps(c, 1)
  {
    var c := Ceiling(0xFFFF, 0xFFFF, 60);
    assert StepAt(c, 0) == Step(65534, 65534, 60, 100);
    assert StepAt(c, 1) == Step(65534, 65534, 30, 100);
    assert StepAt(c, 2) == Step(65534, 65534, 20, 100);
    assert Area(StepAt(c, 0)) == 4_294_705_156;
  }

  // A ceiling of 20 frames a second or fewer makes the first three rungs one step.
  lemma SlowCeiling(c: Ceiling)
    requires c.fps <= 20
    ensures Count(c) <= 4
    ensures StepAt(c, 0) == StepAt(c, 1) == StepAt(c, 2)
  {
    FirstThreeAtMostTwenty(c);
    hide StepAt, CountFrom;
    var s := StepAt(c, 0);
    CountStep(c, 0, NO_STEP, 0);
    CountStep(c, 1, s, 1);
    CountStep(c, 2, s, 1);
  }

  lemma FirstThreeAtMostTwenty(c: Ceiling)
    requires c.fps <= 20
    ensures StepAt(c, 0) == StepAt(c, 1) == StepAt(c, 2)
  {
    hide ScaleEven;
  }

  // ---------------------------------------------------------------------------------------------
  // One update.

  predicate Sound(c: Ceiling, l: Ladder)
  {
    0 <= l.rung < Count(c) && l.step == StepAt(c, l.rung)
  }

  lemma {:induction false} BestIsFirstAffordable(c: Ceiling, bps: Word32, i: nat)
    requires i <= Count(c)
    ensures var best := BestFrom(c, bps, i);
            && (bps >= RequiredBps(c, best) || best == Count(c) - 1)
            && (forall j | i <= j < best :: bps < RequiredBps(c, j))
            && (i < Count(c) ==> i <= best)
    decreases Count(c) - i
  {
    hide RequiredBps, Count;
    if i < Count(c) && bps < RequiredBps(c, i) {
      BestIsFirstAffordable(c, bps, i + 1);
    }
  }

  // After every update the rung is in range, the step is its step, no better rung than the bitrate
  // affords is in use, and a drop goes all the way at once.
  lemma UpdateIsSound(c: Ceiling, l: Ladder, bps: Word32, now: Word64)
    requires Sound(c, l)
    ensures Sound(c, Updated(c, l, bps, now))
    ensures BestFrom(c, bps, 0) <= Updated(c, l, bps, now).rung <= Max(l.rung, BestFrom(c, bps, 0))
  {
    hide StepAt, BestFrom, RequiredBps;
    BestIsFirstAffordable(c, bps, 0);
    if l.rung > 0 {
      assert bps >= Need(c, l.rung - 1) ==> bps >= RequiredBps(c, l.rung - 1);
    }
  }

  // The step in use is affordable, or it is the last one there is.
  predicate Affordable(c: Ceiling, l: Ladder, bps: Word32, now: Word64)
  {
    var r := Updated(c, l, bps, now).rung;
    bps >= RequiredBps(c, r) || r == Count(c) - 1
  }

  // ---------------------------------------------------------------------------------------------
  // Runs of updates.

  datatype Report = Report(bps: Word32, now: Word64)

  function Run(c: Ceiling, h: seq<Report>): Ladder
  {
    if h == [] then Start(c)
    else Updated(c, Run(c, h[..|h| - 1]), h[|h| - 1].bps, h[|h| - 1].now)
  }

  // The rung in use just before report k.
  function RungAt(c: Ceiling, h: seq<Report>, k: nat): int
    requires k <= |h|
  {
    Run(c, h[..k]).rung
  }

  predicate ChangesAt(c: Ceiling, h: seq<Report>, k: nat)
    requires k < |h|
  {
    RungAt(c, h, k + 1) != RungAt(c, h, k)
  }

  ghost predicate Timed(h: seq<Report>)
  {
    && (forall i | 0 <= i < |h| :: 0 < h[i].now)
    && (forall i, j | 0 <= i < j < |h| :: h[i].now <= h[j].now)
  }

  // From report j on all have offered the headroom for the next rung up, with no change of rung.
  ghost predicate Steady(c: Ceiling, h: seq<Report>, j: nat, rung: int)
    requires j <= |h|
  {
    forall k | j <= k < |h| :: h[k].bps >= Need(c, rung - 1) && RungAt(c, h, k) == rung
  }

  // What the two time stamps of the ladder mean for the run behind it.
  ghost predicate Explained(c: Ceiling, h: seq<Report>, l: Ladder)
  {
    && Sound(c, l)
    && (forall k | 0 <= k < |h| && ChangesAt(c, h, k) :: h[k].now <= l.lastChange)
    && (if h == [] then l.lastChange == 0 else l.lastChange <= h[|h| - 1].now)
    && (l.upSince != 0 ==>
        l.rung > 0 && exists j :: 0 <= j < |h| && h[j].now == l.upSince && Steady(c, h, j, l.rung))
  }

  lemma PrefixesAgree(c: Ceiling, h: seq<Report>, r: Report, k: nat)
    requires k <= |h|
    ensures RungAt(c, h + [r], k) == RungAt(c, h, k)
    ensures RungAt(c, h, |h|) == Run(c, h).rung
    ensures Run(c, h + [r]) == Updated(c, Run(c, h), r.bps, r.now)
  {
    assert (h + [r])[..k] == h[..k] && h[..|h|] == h && (h + [r])[..|h|] == h;
  }

  lemma SteadyGoesOn(c: Ceiling, h: seq<Report>, r: Report, j: nat, rung: int)
    requires j <= |h| && Steady(c, h, j, rung)
    requires r.bps >= Need(c, rung - 1) && Run(c, h).rung == rung
    ensures Steady(c, h + [r], j, rung)
  {
    hide Run, Need;
    forall k | j <= k < |h| + 1
      ensures (h + [r])[k].bps >= Need(c, rung - 1) && RungAt(c, h + [r], k) == rung {
      PrefixesAgree(c, h, r, k);
    }
  }

  lemma TimedPrefix(h: seq<Report>, r: Report)
    requires Timed(h + [r])
    ensures Timed(h) && forall i | 0 <= i < |h| :: h[i].now <= r.now
  {
    var g := h + [r];
    forall i, j | 0 <= i < j < |h| ensures h[i].now <= h[j].now { assert g[i].now <= g[j].now; }
    forall i | 0 <= i < |h| ensures 0 < h[i].now <= r.now { assert 0 < g[i].now <= g[|h|].now; }
  }

  // How one update moves the two time stamps.
  lemma StampsMoveOn(c: Ceiling, l: Ladder, r: Report)
    requires Sound(c, l)
    ensures var m := Updated(c, l, r.bps, r.now);
            && (if m.rung != l.rung then m.lastChange == r.now && m.upSince == 0 else m.lastChange == l.lastChange)
            && (m.upSince != 0 ==> (m.upSince == r.now || m.upSince == l.upSince)
                                   && m.rung == l.rung > 0 && r.bps >= Need(c, l.rung - 1))
  {
    hide StepAt, BestFrom, Need, Count;
  }

  lemma ChangesAreStamped(c: Ceiling, h: seq<Report>, r: Report, k: nat)
    requires k <= |h| && ChangesAt(c, h + [r], k) && Timed(h + [r]) && Explained(c, h, Run(c, h))
    ensures (h + [r])[k].now <= Run(c, h + [r]).lastChange
  {
    hide Run, Updated, Timed, Steady, Sound;
    PrefixesAgree(c, h, r, k);
    StampsMoveOn(c, Run(c, h), r);
    TimedPrefix(h, r);
    if k < |h| {
      PrefixesAgree(c, h, r, k + 1);
    } else {
      WholeIsLastPrefix(c, h + [r]);
    }
  }

  lemma WholeIsLastPrefix(c: Ceiling, h: seq<Report>)
    ensures RungAt(c, h, |h|) == Run(c, h).rung
  {
    assert h[..|h|] == h;
  }

  lemma SpanIsSteady(c: Ceiling, h: seq<Report>, r: Report) returns (j: nat)
    requires Explained(c, h, Run(c, h)) && Run(c, h + [r]).upSince != 0
    ensures j <= |h| && (h + [r])[j].now == Run(c, h + [r]).upSince
    ensures Run(c, h + [r]).rung > 0 && Steady(c, h + [r], j, Run(c, h + [r]).rung)
  {
    hide Run, Updated, ChangesAt, Sound;
    var l := Run(c, h);
    PrefixesAgree(c, h, r, |h|);
    StampsMoveOn(c, l, r);
    if l.upSince != 0 && Run(c, h + [r]).upSince == l.upSince {
      j :| 0 <= j < |h| && h[j].now == l.upSince && Steady(c, h, j, l.rung);
    } else {
      j := |h|;
    }
    SteadyGoesOn(c, h, r, j, l.rung);
  }

  lemma ReportIsExplained(c: Ceiling, h: seq<Report>, r: Report)
    requires Explained(c, h, Run(c, h)) && Timed(h + [r])
    ensures Explained(c, h + [r], Run(c, h + [r]))
  {
    hide Run, Updated, ChangesAt, Sound, Steady, Timed;
    var g, m := h + [r], Run(c, h + [r]);
    PrefixesAgree(c, h, r, |h|);
    UpdateIsSound(c, Run(c, h), r.bps, r.now);
    StampsMoveOn(c, Run(c, h), r);
    TimedPrefix(h, r);
    forall k | 0 <= k < |g| && ChangesAt(c, g, k) ensures g[k].now <= m.lastChange {
      ChangesAreStamped(c, h, r, k);
    }
    if m.upSince != 0 {
      var j := SpanIsSteady(c, h, r);
    }
  }

  lemma {:induction false} RunIsExplained(c: Ceiling, h: seq<Report>)
    requires Timed(h)
    ensures Explained(c, h, Run(c, h))
  {
    if h != [] {
      var front, r := h[..|h| - 1], h[|h| - 1];
      assert h == front + [r];
      RunIsExplained(c, front);
      ReportIsExplained(c, front, r);
    }
  }

  // Every upward change moves one rung, comes at least the dwell behind every earlier change, and
  // only after reports that for at least the dwell all offered the headroom it asks for.
  lemma UpIsEarned(c: Ceiling, h: seq<Report>, r: Report)
    requires Timed(h + [r]) && Run(c, h + [r]).rung < Run(c, h).rung
    ensures var rung := Run(c, h).rung;
            && Run(c, h + [r]).rung == rung - 1
            && (forall k | 0 <= k < |h| && ChangesAt(c, h, k) :: r.now - h[k].now >= Dwell(c, rung))
            && (exists j :: 0 <= j < |h| && r.now - h[j].now >= Dwell(c, rung) && Steady(c, h + [r], j, rung))
  {
    hide Run, Updated, Need, Dwell, Timed, Steady, ChangesAt, Sound;
    var l := Run(c, h);
    TimedPrefix(h, r);
    RunIsExplained(c, h);
    PrefixesAgree(c, h, r, |h|);
    UpIsDueToStamps(c, l, r);
    var j :| 0 <= j < |h| && h[j].now == l.upSince && Steady(c, h, j, l.rung);
    SteadyGoesOn(c, h, r, j, l.rung);
  }

  lemma UpIsDueToStamps(c: Ceiling, l: Ladder, r: Report)
    requires Sound(c, l) && Updated(c, l, r.bps, r.now).rung < l.rung
    ensures Updated(c, l, r.bps, r.now).rung == l.rung - 1
    ensures l.upSince != 0 && r.bps >= Need(c, l.rung - 1)
    ensures l.upSince <= r.now ==> r.now - l.upSince >= Dwell(c, l.rung)
    ensures l.lastChange <= r.now ==> r.now - l.lastChange >= Dwell(c, l.rung)
  {
    hide StepAt, BestFrom, Need, Count;
  }

  // The other way round: the ladder is never late with its two time stamps.
  ghost predicate Prompt(c: Ceiling, h: seq<Report>, l: Ladder)
  {
    && (l.rung > 0 ==> exists k :: 0 <= k < |h| && ChangesAt(c, h, k) && h[k].now == l.lastChange)
    && (l.rung > 0 ==> forall j | 0 <= j < |h| && Steady(c, h, j, l.rung) :: 0 != l.upSince <= h[j].now)
  }

  lemma SteadyBefore(c: Ceiling, h: seq<Report>, r: Report, j: nat, rung: int)
    requires j <= |h| && Steady(c, h + [r], j, rung)
    ensures Steady(c, h, j, rung)
    ensures r.bps >= Need(c, rung - 1) && Run(c, h).rung == rung
  {
    hide Run, Need;
    var g := h + [r];
    forall k | j <= k < |h| ensures h[k].bps >= Need(c, rung - 1) && RungAt(c, h, k) == rung {
      PrefixesAgree(c, h, r, k);
      assert g[k] == h[k];
    }
    PrefixesAgree(c, h, r, |h|);
    assert g[|h|] == r;
  }

  // With the headroom for the next rung an update moves up as soon as both stamps are old enough, and sets
  // the one that is missing.
  lemma HeadroomCounts(c: Ceiling, l: Ladder, r: Report)
    requires Sound(c, l) && l.rung > 0 && r.bps >= Need(c, l.rung - 1)
    ensures var m := Updated(c, l, r.bps, r.now);
            if l.upSince == 0 then m.rung == l.rung && m.upSince == r.now
            else if l.upSince <= r.now && r.now - l.upSince >= Dwell(c, l.rung)
                    && l.lastChange <= r.now && r.now - l.lastChange >= Dwell(c, l.rung)
            then m.rung == l.rung - 1
            else m.rung == l.rung ==> m.upSince == l.upSince
  {
    hide StepAt, BestFrom, RequiredBps, Count;
    BestIsFirstAffordable(c, r.bps, 0);
    assert r.bps >= RequiredBps(c, l.rung - 1);
    assert BestFrom(c, r.bps, 0) <= l.rung - 1;
  }

  lemma ChangeIsStamped(c: Ceiling, h: seq<Report>, r: Report)
    requires Prompt(c, h, Run(c, h)) && Sound(c, Run(c, h)) && Run(c, h + [r]).rung > 0
    ensures var g := h + [r];
            exists k :: 0 <= k < |g| && ChangesAt(c, g, k) && g[k].now == Run(c, g).lastChange
  {
    hide Run, Updated, Steady, Sound;
    var g, l := h + [r], Run(c, h);
    PrefixesAgree(c, h, r, |h|);
    StampsMoveOn(c, l, r);
    WholeIsLastPrefix(c, g);
    if Run(c, g).rung == l.rung {
      var k :| 0 <= k < |h| && ChangesAt(c, h, k) && h[k].now == l.lastChange;
      PrefixesAgree(c, h, r, k);
      PrefixesAgree(c, h, r, k + 1);
      assert ChangesAt(c, g, k) && g[k] == h[k];
    } else {
      assert ChangesAt(c, g, |h|) && g[|h|] == r;
    }
  }

  lemma SpanIsStamped(c: Ceiling, h: seq<Report>, r: Report, j: nat)
    requires Timed(h + [r]) && Prompt(c, h, Run(c, h)) && Explained(c, h, Run(c, h))
    requires j <= |h| && Run(c, h + [r]).rung > 0 && Steady(c, h + [r], j, Run(c, h + [r]).rung)
    ensures 0 != Run(c, h + [r]).upSince <= (h + [r])[j].now
  {
    hide Run, Updated, Need, ChangesAt, Sound, Steady;
    var l, m := Run(c, h), Run(c, h + [r]);
    PrefixesAgree(c, h, r, |h|);
    SteadyBefore(c, h, r, j, m.rung);
    HeadroomCounts(c, l, r);
    TimedPrefix(h, r);
    assert (h + [r])[|h|].now > 0;
  }

  lemma {:induction false} RunIsPrompt(c: Ceiling, h: seq<Report>)
    requires Timed(h)
    ensures Prompt(c, h, Run(c, h))
  {
    hide Explained, Timed, ChangesAt, Steady, Updated;
    if h == [] {
      NothingIsPrompt(c);
    } else {
      var front, r := h[..|h| - 1], h[|h| - 1];
      assert h == front + [r];
      TimedPrefix(front, r);
      RunIsPrompt(c, front);
      RunIsExplained(c, front);
      RunIsSound(c, front);
      if Run(c, h).rung > 0 {
        ChangeIsStamped(c, front, r);
        forall j | 0 <= j < |h| && Steady(c, h, j, Run(c, h).rung) ensures 0 != Run(c, h).upSince <= h[j].now {
          SpanIsStamped(c, front, r, j);
        }
      }
    }
  }

  lemma NothingIsPrompt(c: Ceiling)
    ensures Prompt(c, [], Run(c, []))
  {
    hide StepAt;
  }

  lemma RunIsSound(c: Ceiling, h: seq<Report>)
    requires Timed(h)
    ensures Sound(c, Run(c, h))
  {
    hide Run, Sound, Timed;
    RunIsExplained(c, h);
  }

  lemma DwellIs(c: Ceiling, rung: int)
    ensures Dwell(c, rung) == if StepAt(c, rung - 1).width == StepAt(c, rung).width
                                 && StepAt(c, rung - 1).height == StepAt(c, rung).height then 5_000_000 else 15_000_000
  {
    hide StepAt;
  }

  // Up by one rung, exactly when every change is at least the dwell ago and reports that go back at least
  // the dwell have all offered the headroom for it.
  lemma UpIff(c: Ceiling, h: seq<Report>, r: Report)
    requires Timed(h + [r])
    ensures var rung := Run(c, h).rung;
            var dwell := if StepAt(c, rung - 1).width == StepAt(c, rung).width
                            && StepAt(c, rung - 1).height == StepAt(c, rung).height then 5_000_000 else 15_000_000;
            Run(c, h + [r]).rung < rung <==>
              && rung > 0
              && (forall k | 0 <= k < |h| && ChangesAt(c, h, k) :: r.now - h[k].now >= dwell)
              && (exists j :: 0 <= j < |h| && r.now - h[j].now >= dwell && Steady(c, h + [r], j, rung))
    ensures Run(c, h + [r]).rung >= Run(c, h).rung - 1
  {
    DwellIs(c, Run(c, h).rung);
    hide Run, Updated, Need, Dwell, Timed, Steady, ChangesAt, StepAt;
    var l := Run(c, h);
    TimedPrefix(h, r);
    RunIsSound(c, h);
    RunIsPrompt(c, h);
    PrefixesAgree(c, h, r, |h|);
    if Run(c, h + [r]).rung < l.rung {
      UpIsEarned(c, h, r);
      RunIsSound(c, h + [r]);
    } else if l.rung > 0 && (forall k | 0 <= k < |h| && ChangesAt(c, h, k) :: r.now - h[k].now >= Dwell(c, l.rung)) {
      forall j | 0 <= j < |h| && r.now - h[j].now >= Dwell(c, l.rung) ensures !Steady(c, h + [r], j, l.rung) {
        if Steady(c, h + [r], j, l.rung) {
          SteadyBefore(c, h, r, j, l.rung);
          HeadroomCounts(c, l, r);
        }
      }
    }
  }

  // ---------------------------------------------------------------------------------------------
  // What a run can afford.

  // The bitrate that leads to a drop to rung d, if any does.
  function Threshold(c: Ceiling, d: nat): Word32
  {
    if d < Count(c) - 1 then RequiredBps(c, d) else 0
  }

  // Rung d can be dropped to: at some bitrate every rung above it is too dear.
  predicate CanDropTo(c: Ceiling, d: nat)
  {
    0 < d < Count(c) && forall i | 0 <= i < d :: Threshold(c, d) < RequiredBps(c, i)
  }

  // From rung d the ladder can climb to rung r: the bitrates with headroom on the way fit 32 bits.
  predicate CanClimb(c: Ceiling, d: nat, r: nat)
  {
    forall i | r <= i < d :: Need(c, i) < TWO32
  }

  predicate Reachable(c: Ceiling, r: nat)
  {
    r == 0 || exists d :: r <= d < Count(c) && CanDropTo(c, d) && CanClimb(c, d, r)
  }

  // Some rung that is not the last can be reached and seems to need more than one above it.
  predicate TooDear(c: Ceiling)
  {
    exists a: nat, b: nat :: a < b < Count(c) - 1 && RequiredBps(c, a) < RequiredBps(c, b) && Reachable(c, b)
  }

  lemma UpdateStaysReachable(c: Ceiling, l: Ladder, bps: Word32, now: Word64)
    requires Sound(c, l) && Reachable(c, l.rung)
    ensures Sound(c, Updated(c, l, bps, now)) && Reachable(c, Updated(c, l, bps, now).rung)
  {
    hide StepAt, BestFrom, RequiredBps, Count, CanClimb;
    UpdateIsSound(c, l, bps, now);
    BestIsFirstAffordable(c, bps, 0);
    var want, r := BestFrom(c, bps, 0), Updated(c, l, bps, now).rung;
    if want > l.rung {
      assert CanDropTo(c, want);
      NoClimb(c, want);
    } else if r == l.rung - 1 && r > 0 {
      var d :| l.rung <= d < Count(c) && CanDropTo(c, d) && CanClimb(c, d, l.rung);
      OneMoreClimb(c, d, r);
    }
  }

  lemma NoClimb(c: Ceiling, d: nat)
    ensures CanClimb(c, d, d)
  {
  }

  lemma OneMoreClimb(c: Ceiling, d: nat, r: nat)
    requires CanClimb(c, d, r + 1) && Need(c, r) < TWO32
    ensures CanClimb(c, d, r)
  {
    hide Need;
  }

  lemma {:induction false} RunIsReachable(c: Ceiling, h: seq<Report>)
    ensures Sound(c, Run(c, h)) && Reachable(c, Run(c, h).rung)
  {
    hide Sound, Reachable, Updated;
    if h == [] {
      StartIsReachable(c);
    } else {
      RunIsReachable(c, h[..|h| - 1]);
      UpdateStaysReachable(c, Run(c, h[..|h| - 1]), h[|h| - 1].bps, h[|h| - 1].now);
    }
  }

  lemma StartIsReachable(c: Ceiling)
    ensures Sound(c, Start(c)) && Reachable(c, 0)
  {
    hide StepAt;
  }

  // Where no such rung exists every update of every run leaves an affordable step ...
  lemma RunIsAffordable(c: Ceiling, h: seq<Report>, bps: Word32, now: Word64)
    requires !TooDear(c)
    ensures Affordable(c, Run(c, h), bps, now)
  {
    hide StepAt, BestFrom, RequiredBps, Count, Run, Updated, Reachable;
    var l := Run(c, h);
    RunIsReachable(c, h);
    UpdateStaysReachable(c, l, bps, now);
    UpdateIsSound(c, l, bps, now);
    BestIsFirstAffordable(c, bps, 0);
    var best: nat, r: nat := BestFrom(c, bps, 0), Updated(c, l, bps, now).rung;
    assert !(best < r < Count(c) - 1 && RequiredBps(c, best) < RequiredBps(c, r));
  }

  // ... and where one does, some run stands on it, and at the lower bitrate it stays there.
  lemma {:induction false} Climb(c: Ceiling, h: seq<Report>, d: nat, r: nat) returns (g: seq<Report>)
    requires h != [] && Timed(h) && Arrived(c, h, d) && 0 < r <= d && CanClimb(c, d, r)
    requires h[|h| - 1].now + 30_000_000 * (d - r) < TWO63
    ensures g != [] && Timed(g) && Arrived(c, g, r)
    ensures g[|g| - 1].now <= h[|h| - 1].now + 30_000_000 * (d - r)
    decreases d
  {
    hide Timed, Arrived, Need;
    if r == d {
      return h;
    }
    var t := h[|h| - 1].now;
    var bps: Word32 := Need(c, d - 1);
    var next := h + [Report(bps, t + 15_000_000)] + [Report(bps, t + 30_000_000)];
    TimedGoesOn(h, Report(bps, t + 15_000_000));
    TimedGoesOn(h + [Report(bps, t + 15_000_000)], Report(bps, t + 30_000_000));
    OneRungUp(c, h, d, bps, t);
    g := Climb(c, next, d - 1, r);
  }

  // A run has just come to a rung.
  ghost predicate Arrived(c: Ceiling, h: seq<Report>, r: nat)
    requires h != []
  {
    var l := Run(c, h);
    Sound(c, l) && l.rung == r && l.upSince == 0 && l.lastChange <= h[|h| - 1].now
  }

  lemma TimedGoesOn(h: seq<Report>, r: Report)
    requires Timed(h) && 0 < r.now && (h != [] ==> h[|h| - 1].now <= r.now)
    ensures Timed(h + [r])
  {
  }

  lemma RunGoesOn(c: Ceiling, h: seq<Report>, r: Report)
    ensures Run(c, h + [r]) == Updated(c, Run(c, h), r.bps, r.now)
  {
    assert (h + [r])[..|h|] == h;
  }

  lemma OneRungUp(c: Ceiling, h: seq<Report>, d: nat, bps: Word32, t: Word64)
    requires h != [] && Arrived(c, h, d) && d > 0 && bps == Need(c, d - 1)
    requires t == h[|h| - 1].now && t + 30_000_000 < TWO63
    ensures Arrived(c, h + [Report(bps, t + 15_000_000)] + [Report(bps, t + 30_000_000)], d - 1)
  {
    hide StepAt, BestFrom, RequiredBps, Count, Run;
    var l := Run(c, h);
    var first, second := Report(bps, t + 15_000_000), Report(bps, t + 30_000_000);
    RunGoesOn(c, h, first);
    RunGoesOn(c, h + [first], second);
    BestIsFirstAffordable(c, bps, 0);
    assert bps >= RequiredBps(c, d - 1);
    assert BestFrom(c, bps, 0) <= d - 1;
    UpdateIsSound(c, l, bps, first.now);
    var m := Updated(c, l, bps, first.now);
    assert m == l.(upSince := first.now);
    UpdateIsSound(c, m, bps, second.now);
  }

  lemma DropsThere(c: Ceiling, d: nat)
    requires CanDropTo(c, d)
    ensures Timed([Report(Threshold(c, d), 1)]) && Arrived(c, [Report(Threshold(c, d), 1)], d)
  {
    hide StepAt, BestFrom, RequiredBps, Count;
    var bps := Threshold(c, d);
    BestIsFirstAffordable(c, bps, 0);
    assert BestFrom(c, bps, 0) == d;
    StartIsReachable(c);
    UpdateIsSound(c, Start(c), bps, 1);
    RunGoesOn(c, [], Report(bps, 1));
    assert [] + [Report(bps, 1)] == [Report(bps, 1)];
  }

  lemma HeldAboveItsMeans(c: Ceiling, a: nat, b: nat) returns (h: seq<Report>, r: Report)
    requires a < b < Count(c) - 1 && RequiredBps(c, a) < RequiredBps(c, b) && Reachable(c, b)
    ensures Timed(h + [r]) && !Affordable(c, Run(c, h), r.bps, r.now)
  {
    hide Timed, StepAt, BestFrom, RequiredBps, Count, Run, CanDropTo, CanClimb;
    var d :| b <= d < Count(c) && CanDropTo(c, d) && CanClimb(c, d, b);
    DropsThere(c, d);
    CountIsSmall(c);
    h := Climb(c, [Report(Threshold(c, d), 1)], d, b);
    r := Report(RequiredBps(c, a), h[|h| - 1].now);
    BestIsFirstAffordable(c, r.bps, 0);
    assert BestFrom(c, r.bps, 0) <= a;
    TimeIsPositive(h);
    TimedGoesOn(h, r);
  }

  lemma CountIsSmall(c: Ceiling)
    ensures Count(c) <= 6
  {
  }

  lemma TimeIsPositive(h: seq<Report>)
    requires h != [] && Timed(h)
    ensures h[|h| - 1].now > 0
  {
  }

  // After every update of every run the step is affordable or the last in range: exactly unless such a
  // rung exists, and then already on runs whose times rise.
  lemma RunIsAffordableIff(c: Ceiling)
    ensures (forall h, bps: Word32, now: Word64 :: Affordable(c, Run(c, h), bps, now)) <==> !TooDear(c)
    ensures (forall h, r | Timed(h + [r]) :: Affordable(c, Run(c, h), r.bps, r.now)) <==> !TooDear(c)
  {
    hide Timed, Affordable, RequiredBps, Count, Run, Reachable;
    if TooDear(c) {
      var a: nat, b: nat :| a < b < Count(c) - 1 && RequiredBps(c, a) < RequiredBps(c, b) && Reachable(c, b);
      var h, r := HeldAboveItsMeans(c, a, b);
      assert Timed(h + [r]) && !Affordable(c, Run(c, h), r.bps, r.now);
    } else {
      forall h, bps: Word32, now: Word64 ensures Affordable(c, Run(c, h), bps, now) {
        RunIsAffordable(c, h, bps, now);
      }
    }
  }

  // None exists when the top rung fits 32 bits, or at 20 frames a second or fewer.
  lemma FittingIsNotTooDear(c: Ceiling)
    ensures Fits(c) || c.fps <= 20 ==> !TooDear(c)
  {
    hide RequiredBps, Count, Reachable, Fits;
    RequiredNeverGrowsIff(c);
    CountIsSmall(c);
    if c.fps <= 20 {
      SlowCeiling(c);
      SameStepSameNeed(c, 0, 1);
      SameStepSameNeed(c, 0, 2);
    }
  }

  lemma SameStepSameNeed(c: Ceiling, a: nat, b: nat)
    requires StepAt(c, a) == StepAt(c, b)
    ensures RequiredBps(c, a) == RequiredBps(c, b)
  {
  }

  // A run that ends on a rung it cannot pay for: a drop to the fifth rung, fifteen seconds with the
  // headroom for the fourth, and then a bitrate that seems to pay for the second.
  const WIDE := Ceiling(50_000, 50_000, 60)
  const FALL_AND_CLIMB: seq<Report> :=
    [Report(1_000_000_000, 1), Report(2_700_000_000, 2), Report(2_700_000_000, 15_000_002)]

  lemma StepsAtWide()
    ensures StepAt(WIDE, 0) == Step(50_000, 50_000, 60, 100) && StepAt(WIDE, 1) == Step(50_000, 50_000, 30, 100)
    ensures StepAt(WIDE, 2) == Step(50_000, 50_000, 20, 100) && StepAt(WIDE, 3) == Step(37_500, 37_500, 20, 75)
    ensures StepAt(WIDE, 4) == Step(25_000, 25_000, 20, 50) && StepAt(WIDE, 5) == Step(25_000, 25_000, 12, 50)
  {
  }

  lemma RequiredAtWide()
    ensures RequiredBps(WIDE, 0) == 3_410_065_408 && RequiredBps(WIDE, 1) == 1_705_032_704
    ensures RequiredBps(WIDE, 2) == 4_000_000_000 && RequiredBps(WIDE, 3) == 2_250_000_000
    ensures RequiredBps(WIDE, 4) == 1_000_000_000 && RequiredBps(WIDE, 5) == 600_000_000
  {
    StepsAtWide();
    hide StepAt;
  }

  lemma CountAtWide()
    ensures Count(WIDE) == 6
  {
    StepsAtWide();
    hide StepAt;
    assert CountFrom(WIDE, 6, StepAt(WIDE, 5), 6) == 6;
    assert CountFrom(WIDE, 5, StepAt(WIDE, 4), 5) == 6;
    assert CountFrom(WIDE, 4, StepAt(WIDE, 3), 4) == 6;
    assert CountFrom(WIDE, 3, StepAt(WIDE, 2), 3) == 6;
    assert CountFrom(WIDE, 2, StepAt(WIDE, 1), 2) == 6;
    assert CountFrom(WIDE, 1, StepAt(WIDE, 0), 1) == 6;
  }

  lemma RunCanBeTooDear()
    ensures Timed(FALL_AND_CLIMB) && Run(WIDE, FALL_AND_CLIMB).rung == 3
    ensures !Affordable(WIDE, Run(WIDE, FALL_AND_CLIMB), 1_705_032_704, 15_000_003)
  {
    StepsAtWide();
    RequiredAtWide();
    CountAtWide();
    hide StepAt, RequiredBps, Count, BestFrom, Run;
    BestIsFirstAffordable(WIDE, 1_000_000_000, 0);
    BestIsFirstAffordable(WIDE, 2_700_000_000, 0);
    BestIsFirstAffordable(WIDE, 1_705_032_704, 0);
    var one := [FALL_AND_CLIMB[0]];
    var two := one + [FALL_AND_CLIMB[1]];
    RunOfNothing(WIDE);
    RunGoesOn(WIDE, [], FALL_AND_CLIMB[0]);
    assert [] + one == one;
    RunGoesOn(WIDE, one, FALL_AND_CLIMB[1]);
    RunGoesOn(WIDE, two, FALL_AND_CLIMB[2]);
    assert two + [FALL_AND_CLIMB[2]] == FALL_AND_CLIMB;
    assert Run(WIDE, one) == Ladder(4, StepAt(WIDE, 4), 1, 0);
    assert Run(WIDE, two) == Ladder(4, StepAt(WIDE, 4), 1, 2);
  }

  lemma RunOfNothing(c: Ceiling)
    ensures Run(c, []) == Start(c)
  {
    hide Start;
  }

  // A smaller ceiling whose top rung does not fit either, but no run stands where it matters: the second
  // rung cannot be dropped to, and the headroom for it is more than any bitrate that can be reported.
  lemma CutOffCanBeHarmless()
    ensures var c := Ceiling(40_000, 40_000, 60); !Fits(c) && !TooDear(c)
  {
    var c := Ceiling(40_000, 40_000, 60);
    RequiredAtForty();
    NeedAtForty();
    hide Need, RequiredBps, StepAt, TooDear, Fits;
    OnlySecondGrows(c);
  }

  lemma OnlySecondGrows(c: Ceiling)
    requires RequiredBps(c, 0) < RequiredBps(c, 1) && Need(c, 1) >= TWO32
    requires RequiredBps(c, 4) <= RequiredBps(c, 3) <= RequiredBps(c, 2) <= RequiredBps(c, 0)
    ensures !TooDear(c)
  {
    hide Need, RequiredBps, Count, Reachable;
    CountIsSmall(c);
    SecondIsOutOfReach(c);
  }

  lemma RequiredAtForty()
    ensures var c := Ceiling(40_000, 40_000, 60);
            && !Fits(c)
            && RequiredBps(c, 0) == 3_385_032_704 && RequiredBps(c, 1) == 3_840_000_000
            && RequiredBps(c, 2) == 2_560_000_000 && RequiredBps(c, 3) == 1_440_000_000
            && RequiredBps(c, 4) == 640_000_000 && RequiredBps(c, 5) == 384_000_000
  {
    var c := Ceiling(40_000, 40_000, 60);
    assert StepAt(c, 0) == Step(40_000, 40_000, 60, 100) && StepAt(c, 1) == Step(40_000, 40_000, 30, 100);
    assert StepAt(c, 2) == Step(40_000, 40_000, 20, 100) && StepAt(c, 3) == Step(30_000, 30_000, 20, 75);
    assert StepAt(c, 4) == Step(20_000, 20_000, 20, 50) && StepAt(c, 5) == Step(20_000, 20_000, 12, 50);
    hide StepAt;
  }

  lemma NeedAtForty()
    ensures Need(Ceiling(40_000, 40_000, 60), 1) == 4_608_000_000
  {
    RequiredAtForty();
    hide RequiredBps;
  }

  lemma SecondIsOutOfReach(c: Ceiling)
    requires Need(c, 1) >= TWO32 && RequiredBps(c, 0) < RequiredBps(c, 1)
    ensures Count(c) > 2 ==> !Reachable(c, 1)
  {
    hide RequiredBps, Count;
    forall d | 1 <= d < Count(c) && Count(c) > 2 ensures !(CanDropTo(c, d) && CanClimb(c, d, 1)) {
      if d == 1 {
        assert Threshold(c, 1) >= RequiredBps(c, 0);
      } else {
        assert Need(c, 1) >= TWO32;
      }
    }
  }

  // The steps of a ceiling that does not divide: sizes are cut down to even numbers, rates to the ceiling's.
  lemma StepsAreCutDown()
    ensures var c := Ceiling(1367, 769, 15);
            && StepAt(c, 0) == StepAt(c, 2) == Step(1366, 768, 15, 100)
            && StepAt(c, 3) == Step(1024, 576, 15, 75) && StepAt(c, 4) == Step(682, 384, 15, 50)
            && StepAt(c, 5) == Step(682, 384, 12, 50)
  {
  }

  // The bitrate with headroom for a rung is a fifth more than what it requires.
  lemma NeedIsAFifthMore(c: Ceiling, rung: int)
    ensures 100 * Need(c, rung) <= 120 * RequiredBps(c, rung) < 100 * Need(c, rung) + 100
  {
    hide RequiredBps;
  }
}
