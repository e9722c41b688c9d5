/** What a stop and a start bring back. */
module JailRestart {
  import opened Bits
  import opened Hosts
  import opened Matches
  import opened StateFile
  import opened Jail
  import opened JailInvariant
  import opened Settings
  import opened JailRuns

  /** The texts of the records whose release time has not come. */
  function InForce(records: seq<Record>, now: nat): set<string> {
    set r | r in records && now < r.releaseAt :: r.text
  }

  /** The texts of the banned hosts whose release time, as the file keeps it, has not come. */
  function StillDue(hosts: seq<Host>, now: nat): set<string> {
    set h | h in hosts && h.banned && now < h.releaseAt % WORD :: h.text
  }

  /** Stop and start again. */
  function Restarted(accepts: Acceptor, s: System, later: nat, cfg: Config): System {
    Next(accepts, Next(accepts, s, ShutDown), StartUp(later, cfg))
  }

  /** After a restart the backend bans exactly what the file holds in force, whatever was listed. */
  lemma RestartBackend(accepts: Acceptor, s: System, later: nat, cfg: Config)
    requires Invariant(accepts, s) && s.running && cfg.hasState && cfg.hasBackend
    ensures Restarted(accepts, s, later, cfg).jail.backend == InForce(Load(accepts, s.jail.file), later)
  {
    var records := Load(accepts, s.jail.file);
    var hosts := LoadedHosts(records, later);
    assert Next(accepts, s, ShutDown).jail.backend == {};
    assert Restarted(accepts, s, later, cfg).jail.backend == BannedTexts(hosts);
    hide Load, Restarted, Next, Invariant;
    forall t ensures t in BannedTexts(hosts) <==> t in InForce(records, later) {
      if t in BannedTexts(hosts) {
        var h :| h in hosts && h.banned && h.text == t;
        var k :| 0 <= k < |hosts| && hosts[k] == h;
        assert records[k] in records;
      }
      if t in InForce(records, later) {
        var r :| r in records && later < r.releaseAt && r.text == t;
        var k :| 0 <= k < |records| && records[k] == r;
        assert hosts[k] in hosts;
      }
    }
  }

  /** An operator's ban or release of a listed host does what it says at once, and a restart forgets it:
      what is banned then is what the file held in force before the command. */
  lemma CommandForgotten(accepts: Acceptor, s: System, now: nat, op: int, ip: string, later: nat, cfg: Config)
    requires Invariant(accepts, s) && s.running && Lookup(s.jail.hosts, ip) < |s.jail.hosts| && op != 0
    requires s.clock <= now <= later && cfg.hasState && cfg.hasBackend
    ensures var s1 := Next(accepts, s, Command(now, op, ip));
            && (ip in s1.jail.backend <==> op > 0)
            && (ip in Restarted(accepts, s1, later, cfg).jail.backend <==> ip in InForce(Load(accepts, s.jail.file), later))
  {
    LookupFinds(s.jail.hosts, ip);
    StepKeepsInvariant(accepts, s, Command(now, op, ip));
    var s1 := Next(accepts, s, Command(now, op, ip));
    assert s1.jail.file == s.jail.file && s1.running;
    assert ip in s1.jail.backend <==> op > 0;
    hide Load, Next, Invariant;
    RestartBackend(accepts, s1, later, cfg);
  }

  // --- the file holds no ban that is not in force ---

  ghost predicate Backed(hosts: seq<Host>, r: Record) {
    exists h :: h in hosts && h.banned && RecordOf(h) == r
  }

  /** Every record of the file is over, or is the one of a banned host. */
  ghost predicate Current(accepts: Acceptor, j: Jail, clock: nat) {
    && (forall h :: h in j.hosts && h.banned ==> h.releaseAt >= 0)
    && forall r :: r in Load(accepts, j.file) ==> r.releaseAt <= clock || Backed(j.hosts, r)
  }

  lemma BanTimePositive(c: Config, n: nat)
    requires c.bantime > 0
    ensures BanTime(c, n) > 0
  {
    if c.bantimeExtend > 0.0 {
      assert c.bantime as real * c.bantimeExtend >= 0.0;
      assert n as real * (c.bantime as real * c.bantimeExtend) >= 0.0;
    }
  }

  lemma HostKeepsRecord(c: Config, h: Host, m: Match)
    requires c.bantime > 0 && (h.banned ==> h.releaseAt >= 0)
    ensures var g := HostOnMatch(c, h, m);
            && (g.banned ==> g.releaseAt >= 0)
            && (h.banned ==> g.banned && RecordOf(g) == RecordOf(h))
  {
    BanTimePositive(c, h.bancount);
    hide BanTime, Triggers;
  }

  lemma OnMatchCurrent(accepts: Acceptor, c: Config, j: Jail, text: string, m: Match, clock: nat)
    requires c.bantime > 0 && Current(accepts, j, clock)
    ensures Current(accepts, OnMatch(c, j, text, m), clock) && OnMatch(c, j, text, m).file == j.file
  {
    hide HostOnMatch, Load, RecordOf;
    var hosts := FindOrCreate(j.hosts, text);
    LookupFinds(hosts, text);
    var i := Lookup(hosts, text);
    var hosts' := OnMatch(c, j, text, m).hosts;
    if i < |hosts| {
      assert forall h :: h in hosts && h.banned ==> h.releaseAt >= 0;
      assert hosts[i] in hosts;
      HostKeepsRecord(c, hosts[i], m);
      forall r | r in Load(accepts, j.file) && Backed(j.hosts, r) ensures Backed(hosts', r) {
        var h :| h in j.hosts && h.banned && RecordOf(h) == r;
        assert h in hosts;
        var k :| 0 <= k < |hosts| && hosts[k] == h;
        assert hosts'[k] in hosts';
      }
      forall h | h in hosts' && h.banned ensures h.releaseAt >= 0 {
        var k :| 0 <= k < |hosts'| && hosts'[k] == h;
        assert k != i ==> hosts[k] in hosts;
      }
    }
  }

  lemma {:induction false} OnEventsCurrent(accepts: Acceptor, c: Config, j: Jail, events: seq<Event>, now: nat, clock: nat)
    requires c.bantime > 0 && Current(accepts, j, clock)
    ensures Current(accepts, OnEvents(c, j, events, now), clock) && OnEvents(c, j, events, now).file == j.file
  {
    hide Current, OnMatch;
    if events != [] {
      var e := events[|events| - 1];
      OnEventsCurrent(accepts, c, j, events[..|events| - 1], now, clock);
      OnMatchCurrent(accepts, c, OnEvents(c, j, events[..|events| - 1], now), e.text, Matched(c, e, now), clock);
    }
  }

  lemma RecordNotLater(h: Host)
    requires h.releaseAt >= 0
    ensures RecordOf(h).releaseAt <= h.releaseAt
  {}

  lemma SweepCurrent(accepts: Acceptor, c: Config, j: Jail, now: nat, clock: nat)
    requires c.expiretime > 0 && Current(accepts, j, clock) && clock <= now
    ensures Current(accepts, Sweep(c, j, now), now)
  {
    hide Load, RecordOf;
    var kept := SweepHosts(c, j.hosts, now);
    SweepMembers(c, j.hosts, now);
    forall r | r in Load(accepts, j.file) && r.releaseAt > now ensures Backed(kept, r) {
      var h :| h in j.hosts && h.banned && RecordOf(h) == r;
      RecordNotLater(h);
      BannedNeverExpires(c, h, now);
      assert SweptHost(h, now) == h && h in kept;
    }
    forall g | g in kept && g.banned ensures g.releaseAt >= 0 {
      var h :| h in j.hosts && g == SweptHost(h, now);
    }
  }

  lemma SaveCurrent(accepts: Acceptor, c: Config, j: Jail, now: nat)
    requires Current(accepts, j, now) && forall h :: h in j.hosts ==> ValidAddress(accepts, h.text)
    ensures Current(accepts, Save(c, j), now)
  {
    if c.hasState && j.needSave && j.hosts != [] {
      RoundTrip(accepts, j.hosts);
      SavedTexts(j.hosts);
      hide Load, Print;
      forall r | r in BannedReversed(j.hosts) ensures Backed(j.hosts, r) {}
    }
  }

  lemma ProcessCurrent(accepts: Acceptor, c: Config, j: Jail, events: seq<Event>, clock: nat, now: nat)
    requires Consistent(accepts, j, clock) && clock <= now && ValidEvents(accepts, c, events)
    requires c.bantime > 0 && c.expiretime > 0 && Current(accepts, j, clock)
    ensures Current(accepts, Process(c, j, events, now), now)
  {
    var es := if c.hasSource then events else [];
    var j1 := OnEvents(c, j, es, now);
    OnEventsConsistent(accepts, c, j, es, clock, now);
    SweepConsistent(accepts, c, j1, now);
    OnEventsCurrent(accepts, c, j, es, now, clock);
    SweepCurrent(accepts, c, j1, now, clock);
    assert forall h :: h in Sweep(c, j1, now).hosts ==> HostSound(accepts, h, now);
    hide Current, Sweep, OnEvents;
    SaveCurrent(accepts, c, Sweep(c, j1, now), now);
  }

  /** A ban or release of a listed host by the operator. */
  predicate Meddles(s: System, step: Step) {
    step.Command? && step.op != 0 && Lookup(s.jail.hosts, step.ip) < |s.jail.hosts|
  }

  lemma CommandCurrent(accepts: Acceptor, s: System, now: nat, op: int, ip: string)
    requires !Meddles(s, Command(now, op, ip)) && s.cfg.bantime > 0 && s.clock <= now
    requires Current(accepts, s.jail, s.clock)
    ensures Current(accepts, Operate(accepts, s.cfg, s.jail, op, ip, now).0, now)
  {
    hide Load;
    var j, j' := s.jail, Operate(accepts, s.cfg, s.jail, op, ip, now).0;
    BanTimePositive(s.cfg, 0);
    if j' != j {
      assert j'.hosts == [BannedHost(s.cfg, OperatorHost(ip, now))] + j.hosts;
    }
    hide BannedHost, Operate, RecordOf;
    forall r | r in Load(accepts, j.file) && Backed(j.hosts, r) ensures Backed(j'.hosts, r) {
      var h :| h in j.hosts && h.banned && RecordOf(h) == r;
      assert h in j'.hosts;
    }
  }

  lemma StartCurrent(accepts: Acceptor, cfg: Config, file: string, now: nat)
    requires cfg.hasState
    ensures Current(accepts, Start(accepts, cfg, {}, file, now), now)
  {
    var records := Load(accepts, file);
    var hosts := LoadedHosts(records, now);
    hide Load;
    forall r | r in records && r.releaseAt > now ensures Backed(hosts, r) {
      var k :| 0 <= k < |records| && records[k] == r;
      assert hosts[k] in hosts && RecordOf(hosts[k]) == r;
    }
  }

  lemma StepCurrent(accepts: Acceptor, s: System, step: Step)
    requires Invariant(accepts, s) && Allowed(accepts, s, step) && !Meddles(s, step)
    requires s.running && s.cfg.hasState ==> Current(accepts, s.jail, s.clock)
    ensures var s' := Next(accepts, s, step); s'.running && s'.cfg.hasState ==> Current(accepts, s'.jail, s'.clock)
  {
    hide Current, Process, Operate, Start, Stop, SetParam;
    match step
    case StartUp(now, cfg) => if cfg.hasState { StartCurrent(accepts, cfg, s.jail.file, now); }
    case Pass(now, events) =>
      if s.cfg.hasState { ProcessCurrent(accepts, s.cfg, s.jail, events, s.clock, now); }
    case Command(now, op, ip) => if s.cfg.hasState { CommandCurrent(accepts, s, now, op, ip); }
    case Set(param, value, number) => SetParamKeepsModules(s.cfg, ParameterOf(param), value, number);
    case ShutDown =>
  }

  ghost predicate Unmeddled(accepts: Acceptor, s: System, steps: seq<Step>) {
    steps == [] ||
    (Unmeddled(accepts, s, steps[..|steps| - 1]) && !Meddles(Run(accepts, s, steps[..|steps| - 1]), steps[|steps| - 1]))
  }

  lemma {:induction false} RunCurrent(accepts: Acceptor, s: System, steps: seq<Step>)
    requires Initial(accepts, s) && Legal(accepts, s, steps) && Unmeddled(accepts, s, steps)
    ensures var s' := Run(accepts, s, steps);
            && (s'.running && s'.cfg.hasState ==> Current(accepts, s'.jail, s'.clock))
            && NoReban(accepts, s, steps)
  {
    if steps != [] {
      var init := steps[..|steps| - 1];
      RunCurrent(accepts, s, init);
      RunKeepsInvariant(accepts, s, init);
      hide Current;
      StepCurrent(accepts, Run(accepts, s, init), steps[|steps| - 1]);
    }
  }

  /** What a stop and a start after a pass bring back: the bans of the list that are still in force, all
      of them and nothing else. */
  lemma RestartBringsBack(accepts: Acceptor, s: System, steps: seq<Step>, now: nat, events: seq<Event>,
                          later: nat, cfg: Config)
    requires Initial(accepts, s) && Legal(accepts, s, steps) && Unmeddled(accepts, s, steps)
    requires Allowed(accepts, Run(accepts, s, steps), Pass(now, events)) && Run(accepts, s, steps).cfg.hasState
    requires now <= later && Sane(cfg) && cfg.hasBackend && cfg.hasState
    ensures var s1 := Next(accepts, Run(accepts, s, steps), Pass(now, events));
            Restarted(accepts, s1, later, cfg).jail.backend == StillDue(s1.jail.hosts, later)
  {
    hide Run, Legal, Unmeddled, Initial, Process, Restarted;
    var s0 := Run(accepts, s, steps);
    var s1 := Next(accepts, s0, Pass(now, events));
    RunKeepsInvariant(accepts, s, steps);
    RunCurrent(accepts, s, steps);
    RunDurable(accepts, s, steps);
    StepCurrent(accepts, s0, Pass(now, events));
    StepKeepsInvariant(accepts, s0, Pass(now, events));
    ProcessDurable(accepts, s0.cfg, s0.jail, events, s0.clock, now);
    RestartBackend(accepts, s1, later, cfg);
    FileIsList(accepts, s1.jail, s1.clock, later);
  }

  lemma FileIsList(accepts: Acceptor, j: Jail, clock: nat, later: nat)
    requires Current(accepts, j, clock) && OnFile(accepts, j) && clock <= later
    ensures InForce(Load(accepts, j.file), later) == StillDue(j.hosts, later)
  {
    hide Load;
    var records := Load(accepts, j.file);
    forall t ensures t in InForce(records, later) <==> t in StillDue(j.hosts, later) {
      if t in InForce(records, later) {
        var r :| r in records && later < r.releaseAt && r.text == t;
        var h :| h in j.hosts && h.banned && RecordOf(h) == r;
      }
      if t in StillDue(j.hosts, later) {
        var h :| h in j.hosts && h.banned && later < h.releaseAt % WORD && h.text == t;
        assert RecordOf(h) in records;
      }
    }
  }
}
