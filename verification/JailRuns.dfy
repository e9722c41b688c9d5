/** Whole runs of a jail: start, passes, operator commands and settings, stop, start again. */
module JailRuns {
  import opened Bits
  import opened Hosts
  import opened Matches
  import opened StateFile
  import opened Jail
  import opened JailInvariant
  import opened Settings

  datatype System = System(running: bool, clock: nat, cfg: Config, jail: Jail)

  datatype Step =
    | StartUp(now: nat, cfg: Config)
    | Pass(now: nat, events: seq<Event>)
    | Command(now: nat, op: int, ip: string)
    | Set(param: string, value: string, number: real)
    | ShutDown

  ghost predicate Allowed(accepts: Acceptor, s: System, step: Step) {
    match step
    case StartUp(now, cfg) => !s.running && s.clock <= now && Sane(cfg) && cfg.hasBackend
    case Pass(now, events) => s.running && s.clock <= now && ValidEvents(accepts, s.cfg, events)
    case Command(now, _, _) => s.running && s.clock <= now
    case Set(_, _, _) => s.running
    case ShutDown => s.running
  }

  function Next(accepts: Acceptor, s: System, step: Step): System {
    match step
    case StartUp(now, cfg) => System(true, now, cfg, Start(accepts, cfg, s.jail.backend, s.jail.file, now))
    case Pass(now, events) => s.(clock := now, jail := Process(s.cfg, s.jail, events, now))
    case Command(now, op, ip) => s.(clock := now, jail := Operate(accepts, s.cfg, s.jail, op, ip, now).0)
    case Set(param, value, number) => s.(cfg := SetParam(s.cfg, ParameterOf(param), value, number))
    case ShutDown => s.(running := false, jail := Stop(s.cfg, s.jail))
  }

  function Run(accepts: Acceptor, s: System, steps: seq<Step>): System {
    if steps == [] then s else Next(accepts, Run(accepts, s, steps[..|steps| - 1]), steps[|steps| - 1])
  }

  ghost predicate Legal(accepts: Acceptor, s: System, steps: seq<Step>) {
    steps == [] ||
    (Legal(accepts, s, steps[..|steps| - 1]) &&
     Allowed(accepts, Run(accepts, s, steps[..|steps| - 1]), steps[|steps| - 1]))
  }

  /** The jail agrees with its backend while it runs, and leaves nothing banned when it stops. */
  ghost predicate Invariant(accepts: Acceptor, s: System) {
    && Consistent(accepts, s.jail, s.clock)
    && s.jail.stats.hosts == |s.jail.hosts|
    && (s.running ==> Sane(s.cfg) && s.cfg.hasBackend)
    && (!s.running ==> s.jail.hosts == [] && s.jail.backend == {})
  }

  lemma StepKeepsInvariant(accepts: Acceptor, s: System, step: Step)
    requires Invariant(accepts, s) && Allowed(accepts, s, step)
    ensures Invariant(accepts, Next(accepts, s, step))
  {
    match step
    case StartUp(now, cfg) => StartConsistent(accepts, cfg, s.jail.file, now);
    case Pass(now, events) => ProcessConsistent(accepts, s.cfg, s.jail, events, s.clock, now);
    case Command(now, op, ip) => OperateConsistent(accepts, s.cfg, s.jail, op, ip, s.clock, now);
    case Set(param, value, number) =>
      SetParamSane(s.cfg, ParameterOf(param), value, number);
      SetParamKeepsModules(s.cfg, ParameterOf(param), value, number);
    case ShutDown =>
  }

  lemma SetParamKeepsModules(c: Config, param: Parameter, value: string, number: real)
    ensures var c' := SetParam(c, param, value, number);
            c'.hasState == c.hasState && c'.hasBackend == c.hasBackend
            && c'.hasFilter == c.hasFilter && c'.hasSource == c.hasSource
  {
    hide Atoi, Int16, Positive;
  }

  /** A daemon that has never run: nothing listed, nothing banned, some state file. */
  ghost predicate Initial(accepts: Acceptor, s: System) {
    && !s.running && s.jail.hosts == [] && s.jail.backend == {} && s.jail.stats.hosts == 0
    && UniqueRecords(Load(accepts, s.jail.file))
  }

  /** Safety over every run. */
  lemma {:induction false} RunKeepsInvariant(accepts: Acceptor, s: System, steps: seq<Step>)
    requires Initial(accepts, s) && Legal(accepts, s, steps)
    ensures Invariant(accepts, Run(accepts, s, steps))
  {
    if steps != [] {
      RunKeepsInvariant(accepts, s, steps[..|steps| - 1]);
      StepKeepsInvariant(accepts, Run(accepts, s, steps[..|steps| - 1]), steps[|steps| - 1]);
    }
  }

  // --- bans reach the state file ---

  ghost predicate OnFile(accepts: Acceptor, j: Jail) {
    forall h :: h in j.hosts && h.banned ==> RecordOf(h) in Load(accepts, j.file)
  }

  /** Every ban is on file, or a save is due at the end of the next pass. */
  ghost predicate Durable(accepts: Acceptor, c: Config, j: Jail) {
    c.hasState ==> j.needSave || OnFile(accepts, j)
  }

  lemma OnMatchDurable(accepts: Acceptor, c: Config, j: Jail, text: string, m: Match)
    requires Durable(accepts, c, j)
    ensures Durable(accepts, c, OnMatch(c, j, text, m))
  {
    var hosts := FindOrCreate(j.hosts, text);
    var i := Lookup(hosts, text);
    var j' := OnMatch(c, j, text, m);
    if i < |hosts| && c.hasState && !j'.needSave {
      forall h | h in j'.hosts && h.banned ensures RecordOf(h) in Load(accepts, j'.file) {
        var k :| 0 <= k < |j'.hosts| && j'.hosts[k] == h;
        assert hosts[k] in hosts && hosts[k].banned && RecordOf(h) == RecordOf(hosts[k]);
      }
    }
  }

  lemma {:induction false} OnEventsDurable(accepts: Acceptor, c: Config, j: Jail, events: seq<Event>, now: nat)
    requires Durable(accepts, c, j)
    ensures Durable(accepts, c, OnEvents(c, j, events, now))
  {
    if events != [] {
      var e := events[|events| - 1];
      OnEventsDurable(accepts, c, j, events[..|events| - 1], now);
      OnMatchDurable(accepts, c, OnEvents(c, j, events[..|events| - 1], now), e.text, Matched(c, e, now));
    }
  }

  lemma SweepDurable(accepts: Acceptor, c: Config, j: Jail, now: nat)
    requires Durable(accepts, c, j)
    ensures Durable(accepts, c, Sweep(c, j, now))
  {
    SweepMembers(c, j.hosts, now);
    if c.hasState && !j.needSave {
      forall g | g in SweepHosts(c, j.hosts, now) && g.banned ensures RecordOf(g) in Load(accepts, j.file) {
        var h :| h in j.hosts && g == SweptHost(h, now);
      }
    }
  }

  /** After a pass every ban is on file. */
  lemma ProcessDurable(accepts: Acceptor, c: Config, j: Jail, events: seq<Event>, clock: nat, now: nat)
    requires Consistent(accepts, j, clock) && clock <= now && c.expiretime > 0 && ValidEvents(accepts, c, events)
    requires Durable(accepts, c, j) && c.hasState
    ensures OnFile(accepts, Process(c, j, events, now)) && !Process(c, j, events, now).needSave
  {
    var es := if c.hasSource then events else [];
    var j1 := OnEvents(c, j, es, now);
    var j2 := Sweep(c, j1, now);
    OnEventsConsistent(accepts, c, j, es, clock, now);
    SweepConsistent(accepts, c, j1, now);
    OnEventsDurable(accepts, c, j, es, now);
    SweepDurable(accepts, c, j1, now);
    if j2.needSave && j2.hosts != [] {
      assert forall h :: h in j2.hosts ==> HostSound(accepts, h, now);
      RoundTrip(accepts, j2.hosts);
      SavedTexts(j2.hosts);
    }
  }

  /** A ban command for a host that is already listed. */
  predicate Reban(s: System, step: Step) {
    step.Command? && step.op > 0 && Lookup(s.jail.hosts, step.ip) < |s.jail.hosts|
  }

  lemma StepDurable(accepts: Acceptor, s: System, step: Step)
    requires Invariant(accepts, s) && Allowed(accepts, s, step) && !Reban(s, step)
    requires s.running ==> Durable(accepts, s.cfg, s.jail)
    ensures var s' := Next(accepts, s, step); s'.running ==> Durable(accepts, s'.cfg, s'.jail)
  {
    match step
    case StartUp(now, cfg) =>
    case Pass(now, events) =>
      if s.cfg.hasState { ProcessDurable(accepts, s.cfg, s.jail, events, s.clock, now); }
    case Command(now, op, ip) => CommandDurable(accepts, s, now, op, ip);
    case Set(param, value, number) => SetParamKeepsModules(s.cfg, ParameterOf(param), value, number);
    case ShutDown =>
  }

  lemma CommandDurable(accepts: Acceptor, s: System, now: nat, op: int, ip: string)
    requires !Reban(s, Command(now, op, ip)) && Durable(accepts, s.cfg, s.jail)
    ensures Durable(accepts, s.cfg, Operate(accepts, s.cfg, s.jail, op, ip, now).0)
  {
    var hosts := s.jail.hosts;
    var i := Lookup(hosts, ip);
    if i < |hosts| && op < 0 && s.cfg.hasState && !s.jail.needSave {
      forall h | h in hosts[i := ReleasedHost(hosts[i])] && h.banned ensures h in hosts {}
    }
  }

  ghost predicate NoReban(accepts: Acceptor, s: System, steps: seq<Step>) {
    steps == [] ||
    (NoReban(accepts, s, steps[..|steps| - 1]) && !Reban(Run(accepts, s, steps[..|steps| - 1]), steps[|steps| - 1]))
  }

  lemma {:induction false} RunDurable(accepts: Acceptor, s: System, steps: seq<Step>)
    requires Initial(accepts, s) && Legal(accepts, s, steps) && NoReban(accepts, s, steps)
    ensures var s' := Run(accepts, s, steps); s'.running ==> Durable(accepts, s'.cfg, s'.jail)
  {
    if steps != [] {
      var init := steps[..|steps| - 1];
      RunDurable(accepts, s, init);
      RunKeepsInvariant(accepts, s, init);
      StepDurable(accepts, Run(accepts, s, init), steps[|steps| - 1]);
    }
  }

  /** The one command that can lose a ban: banning a listed host again, with no save due, stays
      durable exactly when the new record happens to be on file. */
  lemma RebanDurable(accepts: Acceptor, c: Config, j: Jail, ip: string, now: nat)
    requires Durable(accepts, c, j) && c.hasState && c.hasBackend && Lookup(j.hosts, ip) < |j.hosts|
    ensures Durable(accepts, c, Operate(accepts, c, j, 1, ip, now).0)
       <==> j.needSave || RecordOf(BannedHost(c, j.hosts[Lookup(j.hosts, ip)])) in Load(accepts, j.file)
  {
    var i := Lookup(j.hosts, ip);
    var hosts' := j.hosts[i := BannedHost(c, j.hosts[i])];
    assert hosts'[i] in hosts';
    forall h | h in hosts' && h.banned && h != hosts'[i] ensures h in j.hosts {}
  }

  /** Stop and start again: every ban of a finished pass comes back with its times modulo 2^32,
      in force if that release time has not come. */
  lemma RestartRestores(accepts: Acceptor, s: System, steps: seq<Step>, now: nat, events: seq<Event>,
                        later: nat, cfg: Config, h: Host)
    requires Initial(accepts, s) && Legal(accepts, s, steps) && NoReban(accepts, s, steps)
    requires Allowed(accepts, Run(accepts, s, steps), Pass(now, events)) && Run(accepts, s, steps).cfg.hasState
    requires now <= later && Sane(cfg) && cfg.hasBackend && cfg.hasState
    requires h in Run(accepts, s, steps + [Pass(now, events)]).jail.hosts && h.banned
    ensures var s' := Run(accepts, s, steps + [Pass(now, events), ShutDown, StartUp(later, cfg)]);
            var h' := NewHost(h.text).(banned := later < h.releaseAt % WORD,
                                       bannedAt := h.bannedAt % WORD, releaseAt := h.releaseAt % WORD);
            h' in s'.jail.hosts && (h.text in s'.jail.backend <==> h'.banned)
  {
    hide Run, Legal, NoReban, Initial, Process, Start, Stop, Operate;
    var s0 := Run(accepts, s, steps);
    RunKeepsInvariant(accepts, s, steps);
    RunDurable(accepts, s, steps);
    RunOneMore(accepts, s, steps, Pass(now, events));
    RunOneMore(accepts, s, steps + [Pass(now, events)], ShutDown);
    RunOneMore(accepts, s, steps + [Pass(now, events)] + [ShutDown], StartUp(later, cfg));
    assert steps + [Pass(now, events), ShutDown, StartUp(later, cfg)]
        == steps + [Pass(now, events)] + [ShutDown] + [StartUp(later, cfg)];
    var s1 := Next(accepts, s0, Pass(now, events));
    ProcessDurable(accepts, s0.cfg, s0.jail, events, s0.clock, now);
    StepKeepsInvariant(accepts, s0, Pass(now, events));
    RestartFromFile(accepts, s1, later, cfg, h);
  }

  lemma RunOneMore(accepts: Acceptor, s: System, steps: seq<Step>, step: Step)
    ensures Run(accepts, s, steps + [step]) == Next(accepts, Run(accepts, s, steps), step)
  {
    assert (steps + [step])[..|steps|] == steps;
  }

  lemma RestartFromFile(accepts: Acceptor, s: System, later: nat, cfg: Config, h: Host)
    requires Invariant(accepts, s) && s.running && OnFile(accepts, s.jail)
    requires cfg.hasBackend && cfg.hasState && h in s.jail.hosts && h.banned
    ensures var s' := Next(accepts, Next(accepts, s, ShutDown), StartUp(later, cfg));
            var h' := LoadedHost(RecordOf(h), later);
            h' in s'.jail.hosts && (h.text in s'.jail.backend <==> h'.banned)
  {
    var records := Load(accepts, s.jail.file);
    var s' := Next(accepts, Next(accepts, s, ShutDown), StartUp(later, cfg));
    var h' := LoadedHost(RecordOf(h), later);
    assert s'.jail.hosts == LoadedHosts(records, later) && s'.jail.backend == BannedTexts(s'.jail.hosts);
    hide Load, Next, RecordOf, Consistent;
    var k :| 0 <= k < |records| && records[k] == RecordOf(h);
    assert s'.jail.hosts[k] == h';
    LoadedUnique(records, later);
    forall g | g in s'.jail.hosts && g.text == h.text ensures g == h' {
      SameText(s'.jail.hosts, g, h');
    }
  }

  lemma LoadedUnique(records: seq<Record>, now: nat)
    requires UniqueRecords(records)
    ensures UniqueTexts(LoadedHosts(records, now))
  {}

  /** Times that fit 32 unsigned bits come back as they were, and the ban is in force again. */
  lemma RestartExact(accepts: Acceptor, s: System, steps: seq<Step>, now: nat, events: seq<Event>,
                     later: nat, cfg: Config, h: Host)
    requires Initial(accepts, s) && Legal(accepts, s, steps) && NoReban(accepts, s, steps)
    requires Allowed(accepts, Run(accepts, s, steps), Pass(now, events)) && Run(accepts, s, steps).cfg.hasState
    requires now <= later && Sane(cfg) && cfg.hasBackend && cfg.hasState
    requires h in Run(accepts, s, steps + [Pass(now, events)]).jail.hosts && h.banned
    requires 0 <= h.bannedAt < WORD && later < h.releaseAt < WORD
    ensures var j := Run(accepts, s, steps + [Pass(now, events), ShutDown, StartUp(later, cfg)]).jail;
            && NewHost(h.text).(banned := true, bannedAt := h.bannedAt, releaseAt := h.releaseAt) in j.hosts
            && h.text in j.backend
  {
    hide Run, Legal, NoReban, Initial, Allowed;
    RestartRestores(accepts, s, steps, now, events, later, cfg, h);
    TimeSurvives(h);
  }

  /** In every run the early exit of the score is exact for every listed host and every limit. */
  lemma ScoresExactInRuns(accepts: Acceptor, s: System, steps: seq<Step>, h: Host, after: int)
    requires Initial(accepts, s) && Legal(accepts, s, steps) && h in Run(accepts, s, steps).jail.hosts
    ensures Score(h.matches.list, after) == Total(Newer(h.matches.list, after - 1))
    ensures h.matches.count == |h.matches.list| && h.matches.last == LatestTime(h.matches.list)
  {
    hide Run, Legal, Initial;
    RunKeepsInvariant(accepts, s, steps);
    assert HostSound(accepts, h, Run(accepts, s, steps).clock);
    ScoreIsTotalOfRecent(h.matches.list, after);
  }
}
