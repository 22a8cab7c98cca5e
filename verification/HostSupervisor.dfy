// The Linux daemon: one child process, reaped, restarted with a backoff, and handed over while
// somebody else shares. Sections under the lock are single steps.
module HostSupervision {
  import opened Machine

  const RESTART_BACKOFF_US: int := 2_000_000

  // The key and settings files as read at one moment.
  datatype Snapshot = Snapshot(hostKey: Text, settings: Text)

  // A child that has not been waited for is running or has ended.
  datatype Child = Running | Ended

  datatype Daemon = Daemon(
    child: int,
    held: bool,
    lastExitUs: Word64,
    runningWith: Snapshot,
    unreaped: map<int, Child>)

  const NO_SNAPSHOT := Snapshot([], [])
  const INITIAL := Daemon(-1, false, 0, NO_SNAPSHOT, map[])

  // What one pass of the loop meets: the clock where it looks at it, the files where it reads them,
  // whether a child that is asked to stop does so in time, and what starting a process gives (no pid when
  // it fails).
  datatype Surroundings = Surroundings(
    reapAt: Word64,
    enabled: bool,
    inTime: bool,
    stopAt: Word64,
    seen: Snapshot,
    startAt: Word64,
    displays: bool,
    pid: Option<int>,
    kept: Snapshot)

  // The child is gone and waited for.
  function Gone(d: Daemon, now: Word64): Daemon
  {
    d.(child := -1, lastExitUs := now, unreaped := d.unreaped - {d.child})
  }

  function Reaped(d: Daemon, now: Word64): Daemon
  {
    if d.child > 0 && d.child in d.unreaped && d.unreaped[d.child] == Ended then Gone(d, now) else d
  }

  // HandOverLocked and StopChildLocked: they differ in the signal, not in what they leave.
  function Removed(d: Daemon, now: Word64): Daemon
  {
    if d.child > 0 then Gone(d, now) else d
  }

  predicate ShouldStart(d: Daemon, e: Surroundings)
  {
    !d.held && U64(e.startAt - d.lastExitUs) >= RESTART_BACKOFF_US && e.displays
  }

  function Started(d: Daemon, e: Surroundings): Daemon
  {
    match e.pid
    case None => d.(lastExitUs := e.startAt)
    case Some(pid) => d.(child := pid, runningWith := e.kept, unreaped := d.unreaped[pid := Running])
  }

  // The daemon just before it decides whether to start a child.
  function Cleared(d: Daemon, e: Surroundings): Daemon
  {
    var reaped := Reaped(d, e.reapAt);
    var allowed := if !e.enabled then Removed(reaped, e.stopAt) else reaped;
    if allowed.child > 0 && e.seen != allowed.runningWith then Removed(allowed, e.stopAt) else allowed
  }

  predicate Starts(d: Daemon, e: Surroundings)
  {
    var c := Cleared(d, e);
    c.child <= 0 && e.enabled && ShouldStart(c, e)
  }

  function Stepped(d: Daemon, e: Surroundings): Daemon
  {
    if Starts(d, e) then Started(Cleared(d, e), e) else Cleared(d, e)
  }

  function HeldSet(d: Daemon, held: bool, now: Word64): Daemon
  {
    var e := d.(held := held);
    if held then Removed(e, now) else e
  }

  class HostSupervisor {
    var child: int
    var held: bool
    var lastExitUs: Word64
    var runningWith: Snapshot
    // The kernel's table of this process's children.
    var unreaped: map<int, Child>

    function State(): Daemon
      reads this
    {
      Daemon(child, held, lastExitUs, runningWith, unreaped)
    }

    constructor ()
      ensures State() == INITIAL
    {
      child, held, lastExitUs, runningWith, unreaped := -1, false, 0, NO_SNAPSHOT, map[];
    }

    method ReapLocked(now: Word64)
      modifies this
      ensures State() == Reaped(old(State()), now)
    {
      if child <= 0 {
        return;
      }
      if child !in unreaped || unreaped[child] != Ended {
        return;
      }
      unreaped := unreaped - {child};
      child := -1;
      lastExitUs := now;
    }

    method HandOverLocked(now: Word64)
      modifies this
      ensures State() == Removed(old(State()), now)
    {
      if child <= 0 {
        return;
      }
      unreaped := unreaped - {child};
      child := -1;
      lastExitUs := now;
    }

    // Asks the child to stop and waits for it; kills one that is not gone in time, and waits for that.
    method StopChildLocked(inTime: bool, now: Word64) returns (killed: bool)
      modifies this
      ensures State() == Removed(old(State()), now)
      ensures killed == (old(child) > 0 && !inTime)
    {
      if child <= 0 {
        return false;
      }
      killed := false;
      if inTime {
        unreaped := unreaped - {child};
      } else {
        killed := true;
        unreaped := unreaped - {child};
      }
      child := -1;
      lastExitUs := now;
    }

    method SpawnLocked(e: Surroundings)
      modifies this
      ensures State() == Started(old(State()), e)
    {
      if e.pid.None? {
        lastExitUs := e.startAt;
        return;
      }
      unreaped := unreaped[e.pid.value := Running];
      child := e.pid.value;
      runningWith := e.kept;
    }

    method StepLocked(e: Surroundings)
      modifies this
      ensures State() == Stepped(old(State()), e)
    {
      ReapLocked(e.reapAt);
      if child > 0 && !e.enabled {
        var _ := StopChildLocked(e.inTime, e.stopAt);
      }
      if child > 0 && e.seen != runningWith {
        HandOverLocked(e.stopAt);
      }
      if child <= 0 && e.enabled && ShouldStart(State(), e) {
        SpawnLocked(e);
      }
    }

    method SetHeld(h: bool, now: Word64)
      modifies this
      ensures State() == HeldSet(old(State()), h, now)
    {
      held := h;
      if h {
        HandOverLocked(now);
      }
    }

    method Shutdown(inTime: bool, now: Word64)
      modifies this
      ensures State() == Removed(old(State()), now)
    {
      var _ := StopChildLocked(inTime, now);
    }
  }

  // ---------------------------------------------------------------------------------------------
  // Runs: the loop's passes, the takeovers that hold the child off, and children that end by
  // themselves, in any order.

  datatype Event =
    | Pass(surroundings: Surroundings)
    | BeginTakeover(id: nat, now: Word64)
    | EndTakeover(id: nat, now: Word64)
    | ChildEnds(now: Word64)
    | Shutdown(now: Word64)

  // The supervisor and the takeovers in progress, whose number decides whether it is held.
  datatype World = World(daemon: Daemon, takeovers: set<nat>, clock: Word64)

  const START := World(INITIAL, {}, 0)

  // Times go on, and the system never gives out a pid that is still waited for.
  predicate Can(w: World, e: Event)
  {
    match e
    case Pass(s) =>
      && w.clock <= s.reapAt <= s.stopAt <= s.startAt
      && (s.pid.Some? ==> s.pid.value > 0 && s.pid.value !in w.daemon.unreaped)
    case BeginTakeover(id, now) => id !in w.takeovers && w.clock <= now
    case EndTakeover(id, now) => id in w.takeovers && w.clock <= now
    case ChildEnds(now) =>
      && w.clock <= now
      && w.daemon.child in w.daemon.unreaped && w.daemon.unreaped[w.daemon.child] == Running
    case Shutdown(now) => w.clock <= now
  }

  // A change in the number of takeovers reaches the supervisor only when held changes with it.
  function HoldsChanged(d: Daemon, before: nat, after: nat, now: Word64): Daemon
  {
    if (before > 0) == (after > 0) then d else HeldSet(d, after > 0, now)
  }

  function Step(w: World, e: Event): World
  {
    match e
    case Pass(s) => w.(daemon := Stepped(w.daemon, s), clock := s.startAt)
    case BeginTakeover(id, now) =>
      var t := w.takeovers + {id};
      World(HoldsChanged(w.daemon, |w.takeovers|, |t|, now), t, now)
    case EndTakeover(id, now) =>
      var t := w.takeovers - {id};
      World(HoldsChanged(w.daemon, |w.takeovers|, |t|, now), t, now)
    case ChildEnds(now) =>
      w.(daemon := w.daemon.(unreaped := w.daemon.unreaped[w.daemon.child := Ended]), clock := now)
    case Shutdown(now) => w.(daemon := Removed(w.daemon, now), clock := now)
  }

  function After(run: seq<Event>): World
  {
    if run == [] then START else Step(After(run[..|run| - 1]), run[|run| - 1])
  }

  ghost predicate Happens(run: seq<Event>)
  {
    run != [] ==> Happens(run[..|run| - 1]) && Can(After(run[..|run| - 1]), run[|run| - 1])
  }

  ghost predicate Safe(w: World)
  {
    var d := w.daemon;
    && d.unreaped.Keys == (if d.child > 0 then {d.child} else {})
    && (d.held ==> d.child <= 0)
    && d.held == (w.takeovers != {})
    && d.lastExitUs <= w.clock
  }

  lemma GoneIsGone(d: Daemon, now: Word64)
    requires d.unreaped.Keys == {d.child}
    ensures Gone(d, now).unreaped.Keys == {}
  {
    assert (d.unreaped - {d.child}).Keys == {};
  }

  lemma ClearedIsSafe(w: World, e: Surroundings)
    requires Safe(w) && Can(w, Pass(e))
    ensures Safe(w.(daemon := Cleared(w.daemon, e), clock := e.startAt))
    ensures Cleared(w.daemon, e).held == w.daemon.held
    ensures Cleared(w.daemon, e) == w.daemon ||
            (Cleared(w.daemon, e).child <= 0 && w.clock <= Cleared(w.daemon, e).lastExitUs)
    ensures Cleared(w.daemon, e).unreaped.Keys <= w.daemon.unreaped.Keys
  {
    if w.daemon.child > 0 {
      GoneIsGone(w.daemon, e.reapAt);
      GoneIsGone(w.daemon, e.stopAt);
    }
  }

  lemma PassIsSafe(w: World, e: Surroundings)
    requires Safe(w) && Can(w, Pass(e))
    ensures Safe(Step(w, Pass(e)))
  {
    hide Cleared, U64;
    ClearedIsSafe(w, e);
    if Starts(w.daemon, e) && e.pid.Some? {
      var c := Cleared(w.daemon, e);
      assert (c.unreaped[e.pid.value := Running]).Keys == c.unreaped.Keys + {e.pid.value};
    }
  }

  lemma TakeoverIsSafe(w: World, e: Event)
    requires Safe(w) && Can(w, e) && (e.BeginTakeover? || e.EndTakeover?)
    ensures Safe(Step(w, e))
  {
    if e.BeginTakeover? {
      HoldersCounted(w.takeovers, e.id);
      if w.daemon.child > 0 { GoneIsGone(w.daemon.(held := true), e.now); }
    } else {
      HoldersCounted(w.takeovers - {e.id}, e.id);
      assert w.takeovers - {e.id} + {e.id} == w.takeovers;
    }
  }

  lemma StepIsSafe(w: World, e: Event)
    requires Safe(w) && Can(w, e)
    ensures Safe(Step(w, e))
  {
    hide Stepped, HoldsChanged;
    match e
    case Pass(s) =>
      PassIsSafe(w, s);
    case BeginTakeover(id, now) =>
      TakeoverIsSafe(w, e);
    case EndTakeover(id, now) =>
      TakeoverIsSafe(w, e);
    case ChildEnds(now) =>
      assert (w.daemon.unreaped[w.daemon.child := Ended]).Keys == w.daemon.unreaped.Keys;
    case Shutdown(now) =>
      if w.daemon.child > 0 { GoneIsGone(w.daemon, now); }
  }

  lemma HoldersCounted(t: set<nat>, id: nat)
    requires id !in t
    ensures |t + {id}| == |t| + 1 && (|t| > 0 <==> t != {})
  {
  }

  lemma {:induction false} RunIsSafe(run: seq<Event>)
    requires Happens(run)
    ensures Safe(After(run))
  {
    hide Safe, Can, Step;
    if run == [] {
      StartIsSafe();
    } else {
      RunIsSafe(run[..|run| - 1]);
      StepIsSafe(After(run[..|run| - 1]), run[|run| - 1]);
    }
  }

  lemma StartIsSafe()
    ensures Safe(START)
  {
  }

  // On every run there is never a child while a takeover is in progress, and never a second child
  // that has not been waited for.
  lemma OneChildAndNoneWhileHeld(run: seq<Event>)
    requires Happens(run)
    ensures var w := After(run);
            && (w.takeovers != {} ==> w.daemon.child <= 0 && w.daemon.unreaped == map[])
            && (w.daemon.child > 0 ==> w.daemon.unreaped.Keys == {w.daemon.child})
            && |w.daemon.unreaped| <= 1
  {
    RunIsSafe(run);
  }

  // ---------------------------------------------------------------------------------------------
  // The backoff.

  // When a child ended, was found to have ended or was taken away, or could not be started; and when
  // one was started. The times are those of the events, not what the supervisor makes of them.
  datatype Happening = Exit(at: Word64) | Spawn(at: Word64)

  predicate HasEnded(d: Daemon)
  {
    d.child in d.unreaped && d.unreaped[d.child] == Ended
  }

  // What an event adds to the history.
  function Noted(w: World, e: Event): seq<Happening>
  {
    match e
    case Pass(s) =>
      (if w.daemon.child > 0 && Cleared(w.daemon, s).child <= 0
       then [Exit(if HasEnded(w.daemon) then s.reapAt else s.stopAt)] else [])
      + (if !Starts(w.daemon, s) then [] else if s.pid.Some? then [Spawn(s.startAt)] else [Exit(s.startAt)])
    case ChildEnds(now) => [Exit(now)]
    case EndTakeover(_, _) => []
    case _ => if w.daemon.child > 0 && Step(w, e).daemon.child <= 0 then [Exit(e.now)] else []
  }

  function History(run: seq<Event>): seq<Happening>
  {
    if run == [] then []
    else History(run[..|run| - 1]) + Noted(After(run[..|run| - 1]), run[|run| - 1])
  }

  // Every exit so far lies no later than this time, and every start lies at least the backoff behind
  // every exit before it.
  ghost predicate BackedOff(h: seq<Happening>, until: Word64)
  {
    && (forall i | 0 <= i < |h| && h[i].Exit? :: h[i].at <= until)
    && (forall i, j | 0 <= i < j < |h| && h[i].Exit? && h[j].Spawn? :: h[j].at - h[i].at >= RESTART_BACKOFF_US)
  }

  // Without a child the supervisor remembers a time no earlier than any exit.
  ghost predicate Remembers(w: World, h: seq<Happening>)
  {
    BackedOff(h, w.clock) && (w.daemon.child <= 0 ==> BackedOff(h, w.daemon.lastExitUs))
  }

  lemma LaterWillDo(h: seq<Happening>, until: Word64, later: Word64)
    requires BackedOff(h, until) && until <= later
    ensures BackedOff(h, later)
  {
  }

  lemma ExitIsNoted(h: seq<Happening>, before: Word64, at: Word64, until: Word64)
    requires BackedOff(h, before) && before <= until && at <= until
    ensures BackedOff(h + [Exit(at)], until)
  {
  }

  lemma SpawnIsNoted(h: seq<Happening>, before: Word64, at: Word64)
    requires BackedOff(h, before) && at - before >= RESTART_BACKOFF_US
    ensures BackedOff(h + [Spawn(at)], before)
  {
  }

  // The child that a pass takes away or finds gone: the time it is noted at is the time stamped.
  lemma ClearingIsStamped(w: World, e: Surroundings)
    requires Safe(w) && Can(w, Pass(e))
    ensures var c := Cleared(w.daemon, e);
            if w.daemon.child > 0 && c.child <= 0
            then w.clock <= (if HasEnded(w.daemon) then e.reapAt else e.stopAt) <= c.lastExitUs <= e.startAt
            else c == w.daemon
  {
  }

  lemma ClearingIsNoted(w: World, e: Surroundings, h: seq<Happening>)
    requires Safe(w) && Can(w, Pass(e)) && Remembers(w, h)
    ensures var c := Cleared(w.daemon, e);
            var first := if w.daemon.child > 0 && c.child <= 0
                         then [Exit(if HasEnded(w.daemon) then e.reapAt else e.stopAt)] else [];
            Remembers(World(c, w.takeovers, e.startAt), h + first)
  {
    hide BackedOff, Cleared, HasEnded;
    ClearingIsStamped(w, e);
    var c := Cleared(w.daemon, e);
    if w.daemon.child > 0 && c.child <= 0 {
      var at := if HasEnded(w.daemon) then e.reapAt else e.stopAt;
      ExitIsNoted(h, w.clock, at, c.lastExitUs);
      LaterWillDo(h + [Exit(at)], c.lastExitUs, e.startAt);
    } else {
      assert h + [] == h;
      LaterWillDo(h, w.clock, e.startAt);
    }
  }

  lemma PassBacksOff(w: World, e: Surroundings, h: seq<Happening>)
    requires Safe(w) && Can(w, Pass(e)) && Remembers(w, h)
    ensures Remembers(Step(w, Pass(e)), h + Noted(w, Pass(e)))
  {
    hide BackedOff, Cleared, HasEnded;
    var c := Cleared(w.daemon, e);
    ClearedIsSafe(w, e);
    ClearingIsNoted(w, e, h);
    var first := if w.daemon.child > 0 && c.child <= 0
                 then [Exit(if HasEnded(w.daemon) then e.reapAt else e.stopAt)] else [];
    if !Starts(w.daemon, e) {
      assert h + Noted(w, Pass(e)) == h + first;
    } else if e.pid.Some? {
      SpawnIsNoted(h + first, c.lastExitUs, e.startAt);
      assert h + Noted(w, Pass(e)) == h + first + [Spawn(e.startAt)];
      LaterWillDo(h + first + [Spawn(e.startAt)], c.lastExitUs, e.startAt);
    } else {
      ExitIsNoted(h + first, c.lastExitUs, e.startAt, e.startAt);
      assert h + Noted(w, Pass(e)) == h + first + [Exit(e.startAt)];
    }
  }

  lemma OtherBacksOff(w: World, e: Event, h: seq<Happening>)
    requires !e.Pass? && Safe(w) && Can(w, e) && Remembers(w, h)
    ensures Remembers(Step(w, e), h + Noted(w, e))
  {
    hide BackedOff;
    LaterWillDo(h, w.clock, e.now);
    if Noted(w, e) == [] {
      assert h + [] == h;
    } else {
      ExitIsNoted(h, w.clock, e.now, e.now);
    }
  }

  lemma {:induction false} RunBacksOff(run: seq<Event>)
    requires Happens(run)
    ensures Remembers(After(run), History(run))
  {
    if run != [] {
      hide Safe, Can, Noted, Remembers, Step;
      var front, e := run[..|run| - 1], run[|run| - 1];
      RunBacksOff(front);
      RunIsSafe(front);
      if e.Pass? {
        PassBacksOff(After(front), e.surroundings, History(front));
      } else {
        OtherBacksOff(After(front), e, History(front));
      }
    }
  }

  // On every run, a child is started no sooner than the backoff after any exit or failed start
  // before it.
  lemma SpawnsKeepTheBackoff(run: seq<Event>, i: nat, j: nat)
    requires Happens(run) && i < j < |History(run)|
    requires History(run)[i].Exit? && History(run)[j].Spawn?
    ensures History(run)[j].at - History(run)[i].at >= 2_000_000
  {
    RunBacksOff(run);
  }

  // ---------------------------------------------------------------------------------------------
  // What a pass brings about.

  // The last time the supervisor itself knows of: it found the child gone, took it away or failed to start it.
  function Noticed(w: World, e: Event): Option<Word64>
  {
    match e
    case Pass(s) =>
      if Starts(w.daemon, s) && s.pid.None? then Some(s.startAt)
      else if w.daemon.child > 0 && Cleared(w.daemon, s).child <= 0
      then Some(if HasEnded(w.daemon) then s.reapAt else s.stopAt)
      else None
    case ChildEnds(_) => None
    case EndTakeover(_, _) => None
    case _ => if w.daemon.child > 0 && Step(w, e).daemon.child <= 0 then Some(e.now) else None
  }

  // The last such time of a run, or 0.
  function LastNoticed(run: seq<Event>): Word64
  {
    if run == [] then 0
    else
      var front, e := run[..|run| - 1], run[|run| - 1];
      var noticed := Noticed(After(front), e);
      if noticed.Some? then noticed.value else LastNoticed(front)
  }

  lemma StampIsNoticed(w: World, e: Event)
    requires Safe(w) && Can(w, e)
    ensures Step(w, e).daemon.lastExitUs
            == if Noticed(w, e).Some? then Noticed(w, e).value else w.daemon.lastExitUs
  {
    hide U64;
  }

  lemma {:induction false} RunIsStamped(run: seq<Event>)
    requires Happens(run)
    ensures After(run).daemon.lastExitUs == LastNoticed(run)
  {
    if run != [] {
      hide Safe, Can, Step, Noticed;
      RunIsStamped(run[..|run| - 1]);
      RunIsSafe(run[..|run| - 1]);
      StampIsNoticed(After(run[..|run| - 1]), run[|run| - 1]);
    }
  }

  // On every run, with no takeover and no child, a pass starts one exactly when access is on, there is a
  // display, two seconds have gone by since the last exit it knows of, and the system can.
  lemma ChildIsStartedIff(run: seq<Event>, e: Surroundings)
    requires Happens(run) && Can(After(run), Pass(e))
    requires After(run).takeovers == {} && After(run).daemon.child <= 0
    ensures var d := Step(After(run), Pass(e)).daemon;
            d.child > 0 <==>
              e.enabled && e.displays && U64(e.startAt - LastNoticed(run)) >= 2_000_000 && e.pid.Some?
    ensures var d := Step(After(run), Pass(e)).daemon;
            d.child > 0 ==>
              d.child == e.pid.value && d.runningWith == e.kept && d.unreaped == map[e.pid.value := Running]
  {
    hide After, Happens, Step, Can, LastNoticed;
    RunIsSafe(run);
    RunIsStamped(run);
    PassFromNothing(After(run), e);
  }

  lemma PassFromNothing(w: World, e: Surroundings)
    requires Safe(w) && Can(w, Pass(e)) && w.takeovers == {} && w.daemon.child <= 0
    ensures var d := Step(w, Pass(e)).daemon;
            d.child > 0 <==>
              e.enabled && e.displays && U64(e.startAt - w.daemon.lastExitUs) >= 2_000_000 && e.pid.Some?
    ensures var d := Step(w, Pass(e)).daemon;
            d.child > 0 ==>
              d.child == e.pid.value && d.runningWith == e.kept && d.unreaped == map[e.pid.value := Running]
  {
    hide Cleared, U64;
    ChildlessStays(w.daemon, e);
    assert w.daemon.unreaped == map[];
  }

  // A child that runs under the files as they are, with access on, is left alone; any other is gone after the
  // pass, and if it was not stopped in time or has ended, another follows no sooner than two seconds later.
  lemma ChildIsLeftAloneIff(run: seq<Event>, e: Surroundings)
    requires Happens(run) && Can(After(run), Pass(e)) && After(run).daemon.child > 0
    ensures var d, r := After(run).daemon, Step(After(run), Pass(e)).daemon;
            if !HasEnded(d) && e.enabled && e.seen == d.runningWith then r == d
            else d.child !in r.unreaped && (r.child <= 0 || e.startAt - e.reapAt >= 2_000_000)
  {
    hide After, Happens;
    RunIsSafe(run);
  }

  lemma ChildlessStays(d: Daemon, e: Surroundings)
    ensures d.child <= 0 ==> Cleared(d, e) == d
  {
  }

  // While a takeover is in progress no pass starts a child.
  lemma NoStartWhileHeld(run: seq<Event>, e: Surroundings)
    requires Happens(run) && Can(After(run), Pass(e)) && After(run).takeovers != {}
    ensures Step(After(run), Pass(e)).daemon == After(run).daemon
  {
    hide After, Happens;
    RunIsSafe(run);
  }

  // A child that survives a pass is allowed, and was started under the files the pass has seen or is
  // new.
  lemma PassLeavesCurrentChild(d: Daemon, e: Surroundings)
    ensures var r := Stepped(d, e);
            r.child > 0 ==>
              && e.enabled
              && (if Starts(d, e) then r.runningWith == e.kept else r.child == d.child && r.runningWith == e.seen)
  {
  }

  // A shutdown leaves no child.
  lemma ShutdownTakesTheChild(run: seq<Event>, now: Word64)
    requires Happens(run) && Can(After(run), Shutdown(now))
    ensures var d := Step(After(run), Shutdown(now)).daemon; d.child <= 0 && d.unreaped == map[]
  {
    hide After, Happens;
    RunIsSafe(run);
  }
}
