// The Windows service: one unattended host process, kept out of the way of whoever takes over.
// Sections under the mutex are single steps; every interleaving of them is a run.
module ServiceBroker {
  import opened Machine

  const RESPAWN_BACKOFF_MS: int := 2000
  const MAX_CONCURRENT_HOSTS: int := 16

  // The settings a host process reads when it starts.
  datatype Setup = Setup(hostKey: Text, settings: Text)

  datatype Host = Host(startedWith: Setup, alive: bool)

  // The machine folder; access before sign-in is on while there is a host key in it.
  datatype Disk = Disk(hostKey: Option<Text>, authorizedKeys: Text, settings: Text) {
    predicate Enabled() { hostKey.Some? }

    // What reading the files gives, a missing one reading as empty.
    function Current(): Setup
    {
      Setup(if hostKey.Some? then hostKey.value else [], settings)
    }
  }

  datatype Config = Config(enabled: bool, hostKey: Text, authorizedKeys: Text, settings: Text)

  // Which of the three file operations of a configuration succeed: writes, in their order, when it
  // switches access on, and otherwise removals, which are all tried.
  datatype Writes = Writes(key: bool, authorized: bool, settings: bool) {
    predicate All() { key && authorized && settings }
  }

  // What one pass meets: the clock wherever it looks at it, and what the system answers when a host is
  // started.
  datatype Surroundings = Surroundings(
    reapAt: Word64,
    checkAt: Word64,
    session: bool,
    job: bool,
    spawned: bool,
    endAt: Word64)

  datatype Supervisor = Supervisor(takeoverHolds: int, process: Option<Host>, lastExitMs: Word64, disk: Disk)

  function Stopped(s: Supervisor, now: Word64): Supervisor
  {
    s.(process := None, lastExitMs := now)
  }

  function Spawned(s: Supervisor, e: Surroundings): Supervisor
  {
    if !e.session || !e.job then s
    else if !e.spawned then s.(lastExitMs := e.endAt)
    else s.(process := Some(Host(s.disk.Current(), true)))
  }

  // The locked section of the supervisor's loop.
  function Passed(s: Supervisor, e: Surroundings): Supervisor
  {
    var reaped := if s.process.Some? && !s.process.value.alive then Stopped(s, e.reapAt) else s;
    var wanted := reaped.takeoverHolds == 0 && reaped.disk.Enabled();
    var backedOff := U64(e.checkAt - reaped.lastExitMs) >= RESPAWN_BACKOFF_MS;
    var started := if wanted && reaped.process.None? && backedOff then Spawned(reaped, e) else reaped;
    if !wanted && started.process.Some? then Stopped(started, e.endAt) else started
  }

  function Taken(s: Supervisor, now: Word64): Supervisor
  {
    Stopped(s.(takeoverHolds := s.takeoverHolds + 1), now)
  }

  function Released(s: Supervisor): Supervisor
  {
    s.(takeoverHolds := s.takeoverHolds - 1)
  }

  // The files after a configuration; a write that fails keeps the ones behind it from being tried.
  function Written(d: Disk, c: Config, w: Writes): Disk
  {
    var one := if w.key then d.(hostKey := Some(c.hostKey)) else d;
    var two := if w.key && w.authorized then one.(authorizedKeys := c.authorizedKeys) else one;
    if w.All() then two.(settings := c.settings) else two
  }

  function Removed(d: Disk, w: Writes): Disk
  {
    Disk(if w.key then None else d.hostKey,
         if w.authorized then [] else d.authorizedKeys,
         if w.settings then [] else d.settings)
  }

  predicate NeedsRestart(d: Disk, c: Config)
  {
    d.Current() != Setup(c.hostKey, c.settings)
  }

  function Configured(s: Supervisor, c: Config, w: Writes, now: Word64): Supervisor
  {
    if !c.enabled then Stopped(s, now).(disk := Removed(s.disk, w))
    else
      var written := s.(disk := Written(s.disk, c, w));
      if w.All() && NeedsRestart(s.disk, c) then Stopped(written, now).(lastExitMs := 0) else written
  }

  class UnattendedSupervisor {
    var takeoverHolds: int
    var process: Option<Host>
    var lastExitMs: Word64
    var disk: Disk

    ghost function State(): Supervisor
      reads this
    {
      Supervisor(takeoverHolds, process, lastExitMs, disk)
    }

    constructor (d: Disk)
      ensures State() == Supervisor(0, None, 0, d)
    {
      takeoverHolds, process, lastExitMs, disk := 0, None, 0, d;
    }

    method StopUnattendedHostLocked(now: Word64)
      modifies this
      ensures State() == Stopped(old(State()), now)
    {
      process := None;
      lastExitMs := now;
    }

    method SpawnUnattendedHostLocked(e: Surroundings)
      modifies this
      ensures State() == Spawned(old(State()), e)
    {
      if !e.session {
        return;
      }
      if !e.job {
        return;
      }
      if !e.spawned {
        lastExitMs := e.endAt;
        return;
      }
      process := Some(Host(disk.Current(), true));
    }

    method SupervisePass(e: Surroundings)
      modifies this
      ensures State() == Passed(old(State()), e)
    {
      if process.Some? && !process.value.alive {
        process := None;
        lastExitMs := e.reapAt;
      }
      var wanted := takeoverHolds == 0 && disk.Enabled();
      var backedOff := U64(e.checkAt - lastExitMs) >= RESPAWN_BACKOFF_MS;
      if wanted && process.None? && backedOff {
        SpawnUnattendedHostLocked(e);
      }
      if !wanted && process.Some? {
        StopUnattendedHostLocked(e.endAt);
      }
    }

    method BeginTakeover(now: Word64)
      modifies this
      ensures State() == Taken(old(State()), now)
    {
      takeoverHolds := takeoverHolds + 1;
      StopUnattendedHostLocked(now);
    }

    method EndTakeover()
      modifies this
      ensures State() == Released(old(State()))
    {
      takeoverHolds := takeoverHolds - 1;
    }

    method ApplyConfig(c: Config, w: Writes, now: Word64) returns (applied: bool)
      modifies this
      ensures State() == Configured(old(State()), c, w, now)
      ensures applied == (!c.enabled || w.All())
    {
      if !c.enabled {
        StopUnattendedHostLocked(now);
        disk := Removed(disk, w);
        return true;
      }
      var restart := disk.Current().hostKey != c.hostKey || disk.Current().settings != c.settings;
      applied := w.key;
      if w.key {
        disk := disk.(hostKey := Some(c.hostKey));
        applied := w.authorized;
        if w.authorized {
          disk := disk.(authorizedKeys := c.authorizedKeys);
          applied := w.settings;
          if w.settings {
            disk := disk.(settings := c.settings);
          }
        }
      }
      if !applied {
        return;
      }
      if restart {
        StopUnattendedHostLocked(now);
        lastExitMs := 0;
      }
    }
  }

  // ---------------------------------------------------------------------------------------------
  // The whole service: the threads that serve connections, and the supervisor beside them.

  // A takeover between its two locked sections; acked once the other side has been told.
  datatype Phase = Holding | Acked

  // serving: the connections that have a thread. admitting: the accept loop is between its check of
  // the counter and its increment.
  datatype Service = Service(
    sup: Supervisor,
    takeovers: map<nat, Phase>,
    serving: set<nat>,
    activeHosts: int,
    admitting: bool,
    supervising: bool)

  datatype Event =
    | Admit
    | Refuse
    | StartThread(id: nat)
    | EndThread(id: nat)
    | BeginTakeover(id: nat, now: Word64)
    | Ack(id: nat)
    | EndTakeover(id: nat)
    | Configure(id: nat, config: Config, writes: Writes, now: Word64)
    | Pass(surroundings: Surroundings)
    | HostExits(now: Word64)
    | FinalStop(now: Word64)

  function Initial(d: Disk): Service
  {
    Service(Supervisor(0, None, 0, d), map[], {}, 0, false, true)
  }

  // When an event can happen: what a thread does in order, and what the accept loop has checked.
  predicate Can(s: Service, e: Event)
  {
    match e
    case Admit => !s.admitting && s.activeHosts < MAX_CONCURRENT_HOSTS
    case Refuse => !s.admitting && s.activeHosts >= MAX_CONCURRENT_HOSTS
    case StartThread(id) => s.admitting && id !in s.serving
    case EndThread(id) => id in s.serving && id !in s.takeovers
    case BeginTakeover(id, _) => id in s.serving && id !in s.takeovers
    case Ack(id) => id in s.takeovers && s.takeovers[id] == Holding
    case EndTakeover(id) => id in s.takeovers
    case Configure(id, _, _, _) => id in s.serving && id !in s.takeovers
    case Pass(_) => s.supervising
    case HostExits(_) => s.sup.process.Some? && s.sup.process.value.alive
    case FinalStop(_) => s.supervising
  }

  function Step(s: Service, e: Event): Service
    requires Can(s, e)
  {
    match e
    case Admit => s.(admitting := true)
    case Refuse => s
    case StartThread(id) => s.(admitting := false, serving := s.serving + {id}, activeHosts := s.activeHosts + 1)
    case EndThread(id) => s.(serving := s.serving - {id}, activeHosts := s.activeHosts - 1)
    case BeginTakeover(id, now) => s.(sup := Taken(s.sup, now), takeovers := s.takeovers[id := Holding])
    case Ack(id) => s.(takeovers := s.takeovers[id := Acked])
    case EndTakeover(id) => s.(sup := Released(s.sup), takeovers := s.takeovers - {id})
    case Configure(_, config, writes, now) => s.(sup := Configured(s.sup, config, writes, now))
    case Pass(around) => s.(sup := Passed(s.sup, around))
    case HostExits(_) => s.(sup := s.sup.(process := Some(s.sup.process.value.(alive := false))))
    case FinalStop(now) => s.(sup := Stopped(s.sup, now), supervising := false)
  }

  ghost predicate Happens(d: Disk, run: seq<Event>)
    decreases |run|, 0
  {
    run != [] ==>
      var front := run[..|run| - 1];
      Happens(d, front) && Can(After(d, front), run[|run| - 1])
  }

  ghost function After(d: Disk, run: seq<Event>): Service
    requires Happens(d, run)
    decreases |run|, 1
  {
    if run == [] then Initial(d) else Step(After(d, run[..|run| - 1]), run[|run| - 1])
  }

  // A host process is there only while nobody holds it off, and access is on.
  predicate SupervisorSafe(s: Supervisor)
  {
    s.process.Some? ==> s.takeoverHolds == 0 && s.disk.Enabled()
  }

  // What every step keeps.
  ghost predicate Safe(s: Service)
  {
    && SupervisorSafe(s.sup)
    && s.sup.takeoverHolds == |s.takeovers|
    && s.takeovers.Keys <= s.serving
    && s.activeHosts == |s.serving|
    && s.activeHosts + (if s.admitting then 1 else 0) <= MAX_CONCURRENT_HOSTS
    && (!s.supervising ==> s.sup.process.None?)
  }

  lemma SupervisorStaysSafe(s: Supervisor, c: Config, w: Writes, e: Surroundings, now: Word64)
    requires SupervisorSafe(s)
    ensures SupervisorSafe(Passed(s, e)) && Passed(s, e).takeoverHolds == s.takeoverHolds
    ensures SupervisorSafe(Configured(s, c, w, now)) && Configured(s, c, w, now).takeoverHolds == s.takeoverHolds
    ensures s.process.None? ==> Configured(s, c, w, now).process.None?
  {
    hide U64;
  }

  lemma ThreadStepIsSafe(s: Service, e: Event)
    requires Safe(s) && Can(s, e)
    requires e.Admit? || e.Refuse? || e.StartThread? || e.EndThread?
    ensures Safe(Step(s, e))
  {
    hide SupervisorSafe;
    if e.StartThread? {
      assert |s.serving + {e.id}| == |s.serving| + 1;
    }
  }

  lemma TakeoverStepIsSafe(s: Service, e: Event)
    requires Safe(s) && Can(s, e)
    requires e.BeginTakeover? || e.Ack? || e.EndTakeover?
    ensures Safe(Step(s, e))
  {
    if e.EndTakeover? {
      RemovedKey(s.takeovers, e.id);
    } else {
      AddedKey(s.takeovers, e.id, if e.Ack? then Acked else Holding);
    }
  }

  lemma HostStepIsSafe(s: Service, e: Event)
    requires Safe(s) && Can(s, e)
    requires e.Configure? || e.Pass? || e.HostExits? || e.FinalStop?
    ensures Safe(Step(s, e))
  {
    hide Passed, Configured;
    if e.Pass? {
      SupervisorStaysSafe(s.sup, Config(false, [], [], []), Writes(true, true, true), e.surroundings, 0);
    } else if e.Configure? {
      SupervisorStaysSafe(s.sup, e.config, e.writes, Surroundings(0, 0, false, false, false, 0), e.now);
    }
  }

  lemma StepIsSafe(s: Service, e: Event)
    requires Safe(s) && Can(s, e)
    ensures Safe(Step(s, e))
  {
    hide Safe, Can, Step;
    if e.BeginTakeover? || e.Ack? || e.EndTakeover? {
      TakeoverStepIsSafe(s, e);
    } else if e.Configure? || e.Pass? || e.HostExits? || e.FinalStop? {
      HostStepIsSafe(s, e);
    } else {
      ThreadStepIsSafe(s, e);
    }
  }

  lemma AddedKey(m: map<nat, Phase>, id: nat, p: Phase)
    ensures (m[id := p]).Keys == m.Keys + {id}
    ensures |m[id := p]| == if id in m then |m| else |m| + 1
  {
    assert (m[id := p]).Keys == m.Keys + {id};
    assert id in m ==> m.Keys + {id} == m.Keys;
  }

  lemma RemovedKey(m: map<nat, Phase>, id: nat)
    requires id in m
    ensures |m - {id}| == |m| - 1 && (m - {id}).Keys == m.Keys - {id}
  {
    assert (m - {id}).Keys == m.Keys - {id};
  }

  lemma {:induction false} RunIsSafe(d: Disk, run: seq<Event>)
    requires Happens(d, run)
    ensures Safe(After(d, run))
  {
    if run != [] {
      RunIsSafe(d, run[..|run| - 1]);
      StepIsSafe(After(d, run[..|run| - 1]), run[|run| - 1]);
    }
  }

  // Mutual exclusion, in every interleaving: the counter of holds is the number of takeovers in
  // progress, none of them sees a host process from its first locked section to its last, and no
  // more of them are in progress than connections may be served.
  lemma NoHostDuringTakeover(d: Disk, run: seq<Event>)
    requires Happens(d, run)
    ensures var s := After(d, run);
            && s.sup.takeoverHolds == |s.takeovers| <= 16
            && (forall id | id in s.takeovers :: s.sup.process.None?)
            && (s.sup.process.Some? ==> s.takeovers == map[] && s.sup.disk.Enabled() && s.supervising)
  {
    hide After, Happens;
    RunIsSafe(d, run);
    var s := After(d, run);
    SubsetIsSmaller(s.takeovers.Keys, s.serving);
    forall id | id in s.takeovers ensures s.sup.process.None? {
      RemovedKey(s.takeovers, id);
    }
  }

  // Another connection is served exactly while fewer than sixteen are and none is being let in.
  lemma SixteenAreServed(d: Disk, run: seq<Event>)
    requires Happens(d, run)
    ensures var s := After(d, run);
            && (Can(s, Admit) <==> !s.admitting && |s.serving| < 16)
            && (Can(s, Refuse) <==> !s.admitting && |s.serving| == 16)
  {
    hide After, Happens;
    RunIsSafe(d, run);
  }

  // From the acknowledgement to the end of a takeover: no step in between starts a host.
  lemma {:induction false} NoHostFromAckToEnd(d: Disk, run: seq<Event>, id: nat, from: nat)
    requires Happens(d, run) && from < |run| && run[from] == Ack(id)
    requires forall k | from < k < |run| :: run[k] != EndTakeover(id)
    ensures id in After(d, run).takeovers && After(d, run).sup.process.None?
    decreases |run|
  {
    hide Safe, Step, Can;
    NoHostDuringTakeover(d, run);
    var front, e := run[..|run| - 1], run[|run| - 1];
    if from < |front| {
      assert front[from] == Ack(id);
      NoHostFromAckToEnd(d, front, id, from);
    }
    StaysInProgress(After(d, front), e, id);
  }

  lemma StaysInProgress(s: Service, e: Event, id: nat)
    requires Can(s, e) && e != EndTakeover(id) && (id in s.takeovers || e == Ack(id))
    ensures id in Step(s, e).takeovers
  {
  }

  // Whatever has happened to the files or the counter, a pass leaves only a host that is wanted.
  lemma PassLeavesOnlyWantedHosts(s: Supervisor, e: Surroundings)
    ensures var r := Passed(s, e);
            r.process.Some? ==> r.process.value.alive && r.takeoverHolds == 0 && r.disk.Enabled()
  {
  }

  // Once the last takeover is over and the backoff has gone by, one pass brings the host back.
  lemma HostReturns(d: Disk, run: seq<Event>, e: Surroundings)
    requires Happens(d, run)
    requires var s := After(d, run);
             s.supervising && s.takeovers == map[] && s.sup.disk.Enabled()
             && (s.sup.process.Some? ==> s.sup.process.value.alive)
             && U64(e.checkAt - s.sup.lastExitMs) >= 2000 && e.session && e.job && e.spawned
    ensures Can(After(d, run), Pass(e))
    ensures Step(After(d, run), Pass(e)).sup.process.Some?
  {
    hide After, Happens, U64;
    RunIsSafe(d, run);
  }

  // ---------------------------------------------------------------------------------------------
  // What a configuration brings about.

  // One that changes the key or the settings and is written in full is what the files hold and what the host
  // runs under after the next pass, with no wait, if nobody holds it off and it can be started.
  lemma ConfiguredHostComesUp(d: Disk, run: seq<Event>, id: nat, c: Config, now: Word64, e: Surroundings)
    requires Happens(d, run)
    requires var s := After(d, run);
             && s.supervising && s.takeovers == map[] && id in s.serving
             && (s.sup.disk.Current().hostKey != c.hostKey || s.sup.disk.Current().settings != c.settings)
    requires c.enabled && e.session && e.job && e.spawned && e.checkAt >= 2000
    ensures var s, config := After(d, run), Configure(id, c, Writes(true, true, true), now);
            && Can(s, config) && Can(Step(s, config), Pass(e))
            && Step(s, config).sup.process.None?
            && var r := Step(Step(s, config), Pass(e)).sup;
               && r.process == Some(Host(Setup(c.hostKey, c.settings), true))
               && r.disk == Disk(Some(c.hostKey), c.authorizedKeys, c.settings)
  {
    hide After, Happens;
    RunIsSafe(d, run);
  }

  // One that changes only who is allowed leaves the host alone.
  lemma AllowedListIsUpdatedInPlace(s: Supervisor, c: Config, now: Word64)
    requires c.enabled && s.disk.hostKey == Some(c.hostKey) && s.disk.settings == c.settings
    ensures var r := Configured(s, c, Writes(true, true, true), now);
            && r.disk == Disk(Some(c.hostKey), c.authorizedKeys, c.settings)
            && r.process == s.process && r.lastExitMs == s.lastExitMs && r.takeoverHolds == s.takeoverHolds
  {
  }

  // One that fails at a write has done the writes before it and nothing else.
  lemma FailedWriteStopsThere(s: Supervisor, c: Config, w: Writes, now: Word64)
    requires c.enabled
    ensures !w.key ==> Configured(s, c, w, now) == s
    ensures w.key && !w.authorized ==> Configured(s, c, w, now) == s.(disk := s.disk.(hostKey := Some(c.hostKey)))
    ensures w.key && w.authorized && !w.settings ==>
              Configured(s, c, w, now) == s.(disk := Disk(Some(c.hostKey), c.authorizedKeys, s.disk.settings))
  {
  }

  // One that switches access off stops the host and removes the files, as far as they can be removed.
  lemma SwitchedOffIsRemoved(s: Supervisor, c: Config, w: Writes, now: Word64)
    requires !c.enabled
    ensures var r := Configured(s, c, w, now);
            && r.process.None? && r.lastExitMs == now && r.takeoverHolds == s.takeoverHolds
            && (w.All() ==> r.disk == Disk(None, [], []))
            && (w.key ==> !r.disk.Enabled())
            && (!w.key ==> r.disk.hostKey == s.disk.hostKey)
            && (!w.authorized ==> r.disk.authorizedKeys == s.disk.authorizedKeys)
            && (!w.settings ==> r.disk.settings == s.disk.settings)
  {
  }

  // A takeover takes the host away and begins the wait again, whether or not there was one; its end only
  // lets go.
  lemma TakeoverHoldsOff(s: Service, id: nat, now: Word64)
    ensures Can(s, BeginTakeover(id, now)) ==>
              Step(s, BeginTakeover(id, now)).sup == Supervisor(s.sup.takeoverHolds + 1, None, now, s.sup.disk)
    ensures Can(s, EndTakeover(id)) ==>
              Step(s, EndTakeover(id)).sup == s.sup.(takeoverHolds := s.sup.takeoverHolds - 1)
  {
  }

  // A pass that cannot start a host, for want of a session or a job, or because the wait is not over, and
  // finds none leaves everything as it was; a start that fails begins the wait again.
  lemma PassWithoutStart(s: Supervisor, e: Surroundings)
    requires s.process.None? && s.takeoverHolds == 0 && s.disk.Enabled()
    ensures !e.session || !e.job || U64(e.checkAt - s.lastExitMs) < 2000 ==> Passed(s, e) == s
    ensures e.session && e.job && !e.spawned && U64(e.checkAt - s.lastExitMs) >= 2000 ==>
              Passed(s, e) == s.(lastExitMs := e.endAt)
  {
  }

  // A pass leaves a live host that is wanted as it is, and clears away one that is dead or not wanted.
  lemma PassClearsAway(s: Supervisor, e: Surroundings)
    requires s.process.Some?
    ensures var wanted := s.takeoverHolds == 0 && s.disk.hostKey.Some?;
            && (s.process.value.alive && wanted ==> Passed(s, e) == s)
            && (s.process.value.alive && !wanted ==> Passed(s, e) == s.(process := None, lastExitMs := e.endAt))
            && (!s.process.value.alive && !wanted ==> Passed(s, e) == s.(process := None, lastExitMs := e.reapAt))
            && (!s.process.value.alive && wanted && U64(e.checkAt - e.reapAt) < 2000 ==>
                Passed(s, e) == s.(process := None, lastExitMs := e.reapAt))
  {
  }

  // ---------------------------------------------------------------------------------------------
  // The setup a host was started with.

  // The configurations that switch access on were all written.
  ghost predicate WritesSucceed(run: seq<Event>)
  {
    forall k | 0 <= k < |run| && run[k].Configure? && run[k].config.enabled :: run[k].writes.All()
  }

  // Then a running host was started under the key and settings that are in force.
  lemma {:induction false} HostRunsUnderCurrentSetup(d: Disk, run: seq<Event>)
    requires Happens(d, run) && WritesSucceed(run)
    ensures var s := After(d, run).sup;
            s.process.Some? ==> s.process.value.startedWith == s.disk.Current()
  {
    if run != [] {
      var front, e := run[..|run| - 1], run[|run| - 1];
      assert WritesSucceed(front) by {
        assert forall k | 0 <= k < |front| :: front[k] == run[k];
      }
      HostRunsUnderCurrentSetup(d, front);
      RunIsSafe(d, front);
      HarmlessStepKeeps(After(d, front), e);
    }
  }

  predicate UnderCurrentSetup(s: Supervisor)
  {
    s.process.Some? ==> s.process.value.startedWith == s.disk.Current()
  }

  lemma HarmlessStepKeeps(s: Service, e: Event)
    requires Safe(s) && UnderCurrentSetup(s.sup) && Can(s, e)
    requires e.Configure? ==> Harmless(s.sup, e.config, e.writes)
    ensures UnderCurrentSetup(Step(s, e).sup)
  {
    hide Passed, Configured;
    match e
    case Pass(around) => PassKeepsSetup(s.sup, around);
    case Configure(_, config, writes, now) => ConfigurationKeepsSetupIff(s.sup, config, writes, now);
    case _ =>
  }

  lemma PassKeepsSetup(s: Supervisor, e: Surroundings)
    requires UnderCurrentSetup(s)
    ensures UnderCurrentSetup(Passed(s, e))
  {
    hide U64;
  }

  // When one configuration leaves a running host under the key and settings in force, from any state:
  // one that is written in full, unless it finds them in the files already and the host is under others;
  // one that is not, if the host is under the settings and, whichever is then in force, the key. So from a
  // state in order only a changed key that is written before a later write fails does harm.
  lemma ConfigurationKeepsSetupIff(s: Supervisor, c: Config, w: Writes, now: Word64)
    ensures var kept := UnderCurrentSetup(Configured(s, c, w, now));
            && (!c.enabled || s.process.None? ==> kept)
            && (c.enabled && s.process.Some? && w.All() ==>
                (kept <==> NeedsRestart(s.disk, c) || s.process.value.startedWith == Setup(c.hostKey, c.settings)))
            && (c.enabled && s.process.Some? && !w.All() ==>
                (kept <==> s.process.value.startedWith.settings == s.disk.settings
                           && s.process.value.startedWith.hostKey
                              == if w.key then c.hostKey else s.disk.Current().hostKey))
            && (c.enabled && s.process.Some? && s.disk.Enabled() && UnderCurrentSetup(s) ==>
                (kept <==> w.All() || !w.key || s.disk.hostKey == Some(c.hostKey)))
  {
  }

  // A configuration that switches access on does no harm to a host that is in order: it is written in
  // full, or fails at the key, or finds that key in force, or meets no host.
  predicate Harmless(s: Supervisor, c: Config, w: Writes)
  {
    c.enabled ==> w.All() || !w.key || s.disk.hostKey == Some(c.hostKey) || s.process.None?
  }

  ghost predicate HarmlessAt(d: Disk, run: seq<Event>, k: nat)
    requires Happens(d, run) && k < |run| && Happens(d, run[..k])
  {
    run[k].Configure? ==> Harmless(After(d, run[..k]).sup, run[k].config, run[k].writes)
  }

  lemma {:induction false} PrefixHappens(d: Disk, run: seq<Event>, k: nat)
    requires Happens(d, run) && k <= |run|
    ensures Happens(d, run[..k])
    ensures k < |run| ==> Can(After(d, run[..k]), run[k])
    ensures k < |run| ==> Happens(d, run[..k + 1]) && After(d, run[..k + 1]) == Step(After(d, run[..k]), run[k])
    decreases |run|
  {
    hide Can, Step;
    if k == |run| {
      assert run[..k] == run;
    } else if k == |run| - 1 {
      assert run[..k + 1] == run;
    } else {
      var front := run[..|run| - 1];
      PrefixHappens(d, front, k);
      assert front[..k] == run[..k] && front[..k + 1] == run[..k + 1];
    }
  }

  // On every run: the host is under the key and settings in force after every step, exactly when no
  // configuration does harm.
  lemma HostStaysCurrentIff(d: Disk, run: seq<Event>)
    requires Happens(d, run)
    ensures (forall k | 0 <= k <= |run| :: Happens(d, run[..k]) && UnderCurrentSetup(After(d, run[..k]).sup))
            <==> (forall k | 0 <= k < |run| :: Happens(d, run[..k]) && HarmlessAt(d, run, k))
  {
    hide Happens, After, UnderCurrentSetup, Harmless, Can;
    forall k | 0 <= k <= |run| ensures Happens(d, run[..k]) { PrefixHappens(d, run, k); }
    if forall k | 0 <= k < |run| :: HarmlessAt(d, run, k) {
      forall k | 0 <= k <= |run| ensures UnderCurrentSetup(After(d, run[..k]).sup) {
        HarmlessKeepsCurrent(d, run, k);
      }
    }
    if forall k | 0 <= k <= |run| :: UnderCurrentSetup(After(d, run[..k]).sup) {
      forall k | 0 <= k < |run| ensures HarmlessAt(d, run, k) {
        PrefixHappens(d, run, k);
        CurrentIsHarmless(After(d, run[..k]), run[k], d, run[..k]);
      }
    }
  }

  lemma CurrentIsHarmless(s: Service, e: Event, d: Disk, run: seq<Event>)
    requires Happens(d, run) && s == After(d, run) && Can(s, e)
    requires UnderCurrentSetup(s.sup) && UnderCurrentSetup(Step(s, e).sup)
    ensures e.Configure? ==> Harmless(s.sup, e.config, e.writes)
  {
    hide After, Happens, UnderCurrentSetup, Configured;
    RunIsSafe(d, run);
    if e.Configure? { ConfigurationKeepsSetupIff(s.sup, e.config, e.writes, e.now); }
  }

  lemma {:induction false} HarmlessKeepsCurrent(d: Disk, run: seq<Event>, k: nat)
    requires Happens(d, run) && k <= |run|
    requires forall i | 0 <= i < |run| :: Happens(d, run[..i]) && HarmlessAt(d, run, i)
    ensures Happens(d, run[..k]) && UnderCurrentSetup(After(d, run[..k]).sup)
  {
    hide Happens, After, UnderCurrentSetup, Can;
    PrefixHappens(d, run, k);
    if k == 0 {
      NothingYet(d);
      assert run[..k] == [];
      StartIsCurrent(d);
    } else {
      HarmlessKeepsCurrent(d, run, k - 1);
      PrefixHappens(d, run, k - 1);
      RunIsSafe(d, run[..k - 1]);
      assert HarmlessAt(d, run, k - 1);
      HarmlessStepKeeps(After(d, run[..k - 1]), run[k - 1]);
    }
  }

  lemma StartIsCurrent(d: Disk)
    ensures UnderCurrentSetup(Initial(d).sup)
  {
  }

  // A write that fails half-way leaves a host running under a key that is no longer in force, and the same
  // configuration sent again, now written in full and confirmed, restarts nothing: the files hold the
  // new key already.
  lemma FailedWriteLeavesOldHost(s: Supervisor, c: Config, first: Word64, again: Word64)
    requires s.process.Some? && s.process.value.startedWith == s.disk.Current()
    requires c.enabled && s.disk.hostKey != Some(c.hostKey) && s.disk.Enabled() && c.settings == s.disk.settings
    ensures var r := Configured(s, c, Writes(true, false, false), first);
            r.process == s.process && r.process.value.startedWith != r.disk.Current()
    ensures var left := Configured(s, c, Writes(true, false, false), first);
            var r := Configured(left, c, Writes(true, true, true), again);
            r.process == s.process && r.process.value.startedWith != r.disk.Current() == Setup(c.hostKey, c.settings)
  {
  }

  // The run that leads there from a service just started: one pass, two connections, and the same
  // configuration over each.
  function Retry(c: Config, first: Word64, again: Word64): seq<Event>
  {
    [Pass(Surroundings(0, RESPAWN_BACKOFF_MS, true, true, true, 0)),
     Admit, StartThread(0), Configure(0, c, Writes(true, false, false), first), EndThread(0),
     Admit, StartThread(1), Configure(1, c, Writes(true, true, true), again)]
  }

  lemma RetryLeavesOldHost(d: Disk, key: Text, first: Word64, again: Word64)
    requires d.Enabled() && d.hostKey != Some(key)
    ensures var run := Retry(Config(true, key, d.authorizedKeys, d.settings), first, again);
            && Happens(d, run)
            && After(d, run).sup.process == Some(Host(d.Current(), true))
            && After(d, run).sup.disk.Current() == Setup(key, d.settings) != d.Current()
  {
    var c := Config(true, key, d.authorizedKeys, d.settings);
    var run := Retry(c, first, again);
    NothingYet(d);
    hide Happens, After, Passed, Configured;
    assert run[..0] == [];
    Onward(d, run, 0);
    FirstPassStarts(d);
    Onward(d, run, 1);
    Onward(d, run, 2);
    assert After(d, run[..3]).sup == Supervisor(0, Some(Host(d.Current(), true)), 0, d);
    FailedWriteLeavesOldHost(After(d, run[..3]).sup, c, first, again);
    Onward(d, run, 3);
    Onward(d, run, 4);
    Onward(d, run, 5);
    Onward(d, run, 6);
    Onward(d, run, 7);
    assert run[..8] == run;
  }

  lemma Onward(d: Disk, run: seq<Event>, k: nat)
    requires k < |run| && Happens(d, run[..k]) && Can(After(d, run[..k]), run[k])
    ensures Happens(d, run[..k + 1]) && After(d, run[..k + 1]) == Step(After(d, run[..k]), run[k])
  {
    assert run[..k + 1][..k] == run[..k];
  }

  lemma FirstPassStarts(d: Disk)
    requires d.Enabled()
    ensures Passed(Initial(d).sup, Surroundings(0, RESPAWN_BACKOFF_MS, true, true, true, 0))
            == Supervisor(0, Some(Host(d.Current(), true)), 0, d)
  {
  }

  lemma NothingYet(d: Disk)
    ensures Happens(d, []) && After(d, []) == Initial(d)
  {
  }

  // ---------------------------------------------------------------------------------------------
  // The backoff.

  // The time an event begins, no earlier than `since`, and the time it is over.
  predicate InTime(e: Event, since: Word64)
  {
    match e
    case Pass(p) => since <= p.reapAt <= p.checkAt <= p.endAt
    case BeginTakeover(_, now) => since <= now
    case Configure(_, _, _, now) => since <= now
    case HostExits(now) => since <= now
    case FinalStop(now) => since <= now
    case _ => true
  }

  function Over(e: Event, since: Word64): Word64
  {
    match e
    case Pass(p) => p.endAt
    case BeginTakeover(_, now) => now
    case Configure(_, _, _, now) => now
    case HostExits(now) => now
    case FinalStop(now) => now
    case _ => since
  }

  function Clock(run: seq<Event>): Word64
  {
    if run == [] then 0 else Over(run[|run| - 1], Clock(run[..|run| - 1]))
  }

  // The clock never goes back during the run.
  ghost predicate Timely(run: seq<Event>)
  {
    run != [] ==> Timely(run[..|run| - 1]) && InTime(run[|run| - 1], Clock(run[..|run| - 1]))
  }

  // A host ended, was found to have ended or was stopped, or could not be started; a configuration waived
  // the wait; a host was started, once the clock had been looked at. The times are those of the events.
  datatype Happening = Exit(at: Word64) | Waiver | Start(at: Word64)

  predicate Reaps(s: Supervisor)
  {
    s.process.Some? && !s.process.value.alive
  }

  // What a pass does with a host, in this order: it is found dead, one is started or fails to, it is stopped.
  function PassNotes(s: Supervisor, e: Surroundings): seq<Happening>
  {
    var reaped := if Reaps(s) then Stopped(s, e.reapAt) else s;
    var after := Passed(s, e);
    (if Reaps(s) then [Exit(e.reapAt)] else [])
    + (if reaped.process.None? && after.process.Some? then [Start(e.checkAt)] else [])
    + (if reaped.process.None? && after.process.None? && Tries(reaped, e) && e.session && e.job
       then [Exit(e.endAt)] else [])
    + (if reaped.process.Some? && after.process.None? then [Exit(e.endAt)] else [])
  }

  predicate Tries(s: Supervisor, e: Surroundings)
  {
    s.takeoverHolds == 0 && s.disk.Enabled() && U64(e.checkAt - s.lastExitMs) >= RESPAWN_BACKOFF_MS
  }

  function Noted(s: Service, e: Event): seq<Happening>
    requires Can(s, e)
  {
    match e
    case Pass(p) => PassNotes(s.sup, p)
    case HostExits(now) => [Exit(now)]
    case Configure(_, c, w, now) =>
      (if s.sup.process.Some? && Step(s, e).sup.process.None? then [Exit(now)] else [])
      + (if c.enabled && w.All() && NeedsRestart(s.sup.disk, c) then [Waiver] else [])
    case BeginTakeover(_, now) => if s.sup.process.Some? && Step(s, e).sup.process.None? then [Exit(now)] else []
    case FinalStop(now) => if s.sup.process.Some? && Step(s, e).sup.process.None? then [Exit(now)] else []
    case _ => []
  }

  ghost function History(d: Disk, run: seq<Event>): seq<Happening>
    requires Happens(d, run)
  {
    if run == [] then []
    else History(d, run[..|run| - 1]) + Noted(After(d, run[..|run| - 1]), run[|run| - 1])
  }

  // No waiver behind place i.
  ghost predicate Unwaived(h: seq<Happening>, i: nat, j: nat)
    requires j <= |h|
  {
    forall k | i < k < j :: h[k] != Waiver
  }

  // The exits that are not waived lie no later than this time, and every start lies the backoff behind
  // every exit before it, up to a waiver.
  ghost predicate BackedOff(h: seq<Happening>, until: Word64)
  {
    && (forall i | 0 <= i < |h| && h[i].Exit? && Unwaived(h, i, |h|) :: h[i].at <= until)
    && (forall i, j | 0 <= i < j < |h| && h[i].Exit? && h[j].Start? && Unwaived(h, i, j) ::
          h[j].at - h[i].at >= RESPAWN_BACKOFF_MS)
  }

  // Without a host the supervisor remembers a time no earlier than any exit that is not waived.
  ghost predicate Remembers(s: Supervisor, h: seq<Happening>, clock: Word64)
  {
    BackedOff(h, clock) && s.lastExitMs <= clock && (s.process.None? ==> BackedOff(h, s.lastExitMs))
  }

  lemma UnwaivedBefore(h: seq<Happening>, x: Happening, i: nat, j: nat)
    requires j <= |h|
    ensures Unwaived(h + [x], i, j) == Unwaived(h, i, j)
    ensures i < |h| ==> Unwaived(h + [x], i, |h| + 1) == (Unwaived(h, i, |h|) && x != Waiver)
  {
    var g := h + [x];
    assert forall k | 0 <= k < |h| :: g[k] == h[k];
    assert g[|h|] == x;
    if i < |h| && Unwaived(g, i, |h| + 1) { assert g[|h|] != Waiver; }
  }

  lemma LaterWillDo(h: seq<Happening>, until: Word64, later: Word64)
    requires BackedOff(h, until) && until <= later
    ensures BackedOff(h, later)
  {
  }

  lemma OneMoreNoted(h: seq<Happening>, x: Happening, before: Word64, until: Word64)
    requires BackedOff(h, before)
    requires x.Exit? ==> before <= until && x.at <= until
    requires x.Start? ==> before <= until && x.at - before >= RESPAWN_BACKOFF_MS
    ensures BackedOff(h + [x], until)
  {
    hide Unwaived;
    var g := h + [x];
    forall i | 0 <= i < |g| && g[i].Exit? && Unwaived(g, i, |g|) ensures g[i].at <= until {
      UnwaivedBefore(h, x, i, |h|);
    }
    forall i, j | 0 <= i < j < |g| && g[i].Exit? && g[j].Start? && Unwaived(g, i, j)
      ensures g[j].at - g[i].at >= RESPAWN_BACKOFF_MS {
      UnwaivedBefore(h, x, i, j);
    }
  }

  lemma LiveHostPass(s: Supervisor, e: Surroundings, h: seq<Happening>, clock: Word64)
    requires !Reaps(s) && Remembers(s, h, clock) && clock <= e.checkAt <= e.endAt
    ensures Remembers(Passed(s, e), h + PassNotes(s, e), e.endAt)
  {
    hide BackedOff;
    LaterWillDo(h, clock, e.endAt);
    var notes, r := PassNotes(s, e), Passed(s, e);
    if s.process.None? && r.process.Some? {
      assert notes == [Start(e.checkAt)] && r.lastExitMs == s.lastExitMs;
      OneMoreNoted(h, Start(e.checkAt), s.lastExitMs, e.endAt);
    } else if s.process.Some? && r.process.None? {
      assert notes == [Exit(e.endAt)] && r.lastExitMs == e.endAt;
      OneMoreNoted(h, Exit(e.endAt), clock, e.endAt);
    } else if s.process.None? && Tries(s, e) && e.session && e.job {
      assert notes == [Exit(e.endAt)] && r.lastExitMs == e.endAt;
      OneMoreNoted(h, Exit(e.endAt), clock, e.endAt);
    } else {
      assert notes == [] && h + notes == h && r.lastExitMs == s.lastExitMs;
    }
  }

  lemma PassRemembers(s: Supervisor, e: Surroundings, h: seq<Happening>, clock: Word64)
    requires Remembers(s, h, clock) && clock <= e.reapAt <= e.checkAt <= e.endAt
    ensures Remembers(Passed(s, e), h + PassNotes(s, e), e.endAt)
  {
    hide BackedOff, Remembers, PassNotes, Passed;
    if Reaps(s) {
      var reaped, first := Stopped(s, e.reapAt), h + [Exit(e.reapAt)];
      ReapingRemembers(s, e.reapAt, h, clock);
      LiveHostPass(reaped, e, first, e.reapAt);
      ReapingFirst(s, e);
      assert first + PassNotes(reaped, e) == h + PassNotes(s, e);
    } else {
      LiveHostPass(s, e, h, clock);
    }
  }

  lemma ReapingFirst(s: Supervisor, e: Surroundings)
    requires Reaps(s)
    ensures Passed(s, e) == Passed(Stopped(s, e.reapAt), e)
    ensures PassNotes(s, e) == [Exit(e.reapAt)] + PassNotes(Stopped(s, e.reapAt), e)
  {
    hide U64;
  }

  // A host that is gone at this time, stamped and noted.
  lemma ReapingRemembers(s: Supervisor, at: Word64, h: seq<Happening>, clock: Word64)
    requires Remembers(s, h, clock) && clock <= at
    ensures Remembers(Stopped(s, at), h + [Exit(at)], at)
    ensures Remembers(Stopped(s, at), h, at)
  {
    hide BackedOff;
    OneMoreNoted(h, Exit(at), clock, at);
    LaterWillDo(h, clock, at);
  }

  lemma ConfigurationRemembers(s: Supervisor, c: Config, w: Writes, now: Word64, h: seq<Happening>, clock: Word64)
    requires Remembers(s, h, clock) && clock <= now
    ensures var r := Configured(s, c, w, now);
            var notes := (if s.process.Some? && r.process.None? then [Exit(now)] else [])
                         + (if c.enabled && w.All() && NeedsRestart(s.disk, c) then [Waiver] else []);
            Remembers(r, h + notes, now)
  {
    hide BackedOff;
    var r := Configured(s, c, w, now);
    var first := if s.process.Some? && r.process.None? then [Exit(now)] else [];
    ReapingRemembers(s, now, h, clock);
    assert h + [] == h;
    if c.enabled && w.All() && NeedsRestart(s.disk, c) {
      OneMoreNoted(h + first, Waiver, now, now);
      OneMoreNoted(h + first, Waiver, now, 0);
      assert h + (first + [Waiver]) == h + first + [Waiver];
    } else {
      assert first + [] == first;
      LaterWillDo(h, clock, now);
    }
  }

  lemma StepRemembers(s: Service, e: Event, h: seq<Happening>, clock: Word64)
    requires Can(s, e) && Remembers(s.sup, h, clock) && InTime(e, clock)
    ensures Remembers(Step(s, e).sup, h + Noted(s, e), Over(e, clock))
  {
    hide BackedOff, Passed, PassNotes, Configured;
    match e
    case Pass(p) =>
      PassRemembers(s.sup, p, h, clock);
    case Configure(_, c, w, now) =>
      ConfigurationRemembers(s.sup, c, w, now, h, clock);
    case BeginTakeover(_, now) =>
      ReapingRemembers(s.sup, now, h, clock);
      assert h + [] == h;
    case FinalStop(now) =>
      ReapingRemembers(s.sup, now, h, clock);
      assert h + [] == h;
    case HostExits(now) =>
      OneMoreNoted(h, Exit(now), clock, now);
    case _ =>
      assert h + [] == h;
  }

  lemma {:induction false} RunRemembers(d: Disk, run: seq<Event>)
    requires Happens(d, run) && Timely(run)
    ensures Remembers(After(d, run).sup, History(d, run), Clock(run))
  {
    hide Remembers, Can, Step, Noted, InTime, Over;
    if run == [] {
      StartRemembers(d);
    } else {
      RunRemembers(d, run[..|run| - 1]);
      StepRemembers(After(d, run[..|run| - 1]), run[|run| - 1], History(d, run[..|run| - 1]), Clock(run[..|run| - 1]));
    }
  }

  lemma StartRemembers(d: Disk)
    ensures Remembers(Initial(d).sup, [], 0)
  {
  }

  // On every run whose clock does not go back, a host is started no sooner than the backoff behind every
  // exit or failed start before it, unless a configuration waived the wait in between.
  lemma StartsKeepTheBackoff(d: Disk, run: seq<Event>, i: nat, j: nat)
    requires Happens(d, run) && Timely(run) && i < j < |History(d, run)|
    requires History(d, run)[i].Exit? && History(d, run)[j].Start?
    requires forall k | i < k < j :: History(d, run)[k] != Waiver
    ensures History(d, run)[j].at - History(d, run)[i].at >= 2000
  {
    RunRemembers(d, run);
    assert Unwaived(History(d, run), i, j);
  }
}
