/** How long bans last. */
module JailBans {
  import opened Hosts
  import opened Matches
  import opened Jail
  import opened JailInvariant
  import opened JailRuns

  // --- a ban holds until its release time, and no longer ---

  ghost predicate HasBan(hosts: seq<Host>, text: string, at: int, until: int) {
    exists h :: h in hosts && h.text == text && h.banned && h.bannedAt == at && h.releaseAt == until
  }

  lemma OnMatchKeepsBan(c: Config, j: Jail, text: string, m: Match, t: string, at: int, until: int)
    requires UniqueTexts(j.hosts) && HasBan(j.hosts, t, at, until)
    ensures HasBan(OnMatch(c, j, text, m).hosts, t, at, until)
  {
    var hosts := FindOrCreate(j.hosts, text);
    var i := Lookup(hosts, text);
    var h :| h in j.hosts && h.text == t && h.banned && h.bannedAt == at && h.releaseAt == until;
    assert h in hosts;
    var k :| 0 <= k < |hosts| && hosts[k] == h;
    var hosts' := OnMatch(c, j, text, m).hosts;
    LookupFinds(hosts, text);
    assert hosts'[k] in hosts';
  }

  lemma {:induction false} OnEventsKeepBan(accepts: Acceptor, c: Config, j: Jail, events: seq<Event>, clock: nat, now: nat,
                                           t: string, at: int, until: int)
    requires Consistent(accepts, j, clock) && clock <= now && ValidEvents(accepts, c, events)
    requires HasBan(j.hosts, t, at, until)
    ensures HasBan(OnEvents(c, j, events, now).hosts, t, at, until)
  {
    if events != [] {
      var e := events[|events| - 1];
      OnEventsKeepBan(accepts, c, j, events[..|events| - 1], clock, now, t, at, until);
      OnEventsConsistent(accepts, c, j, events[..|events| - 1], clock, now);
      OnMatchKeepsBan(c, OnEvents(c, j, events[..|events| - 1], now), e.text, Matched(c, e, now), t, at, until);
    }
  }

  /** Whatever matches arrive, a pass keeps a ban that is not yet over and ends one that is. */
  lemma PassOnBan(accepts: Acceptor, s: System, now: nat, events: seq<Event>, t: string, at: int, until: int)
    requires Invariant(accepts, s) && Allowed(accepts, s, Pass(now, events))
    requires HasBan(s.jail.hosts, t, at, until)
    ensures var j := Next(accepts, s, Pass(now, events)).jail;
            if now <= until then HasBan(j.hosts, t, at, until) && t in j.backend else t !in j.backend
  {
    var c, j := s.cfg, s.jail;
    var es := if c.hasSource then events else [];
    var j1 := OnEvents(c, j, es, now);
    OnEventsConsistent(accepts, c, j, es, s.clock, now);
    OnEventsKeepBan(accepts, c, j, es, s.clock, now, t, at, until);
    var h :| h in j1.hosts && h.text == t && h.banned && h.bannedAt == at && h.releaseAt == until;
    SweepMembers(c, j1.hosts, now);
    SweepAgreed(c, j1, now);
    if now <= until {
      BannedNeverExpires(c, h, now);
      assert SweptHost(h, now) == h;
      assert h in SweepHosts(c, j1.hosts, now);
    } else {
      assert t in Freed(j1.hosts, now);
    }
  }

  predicate PassBefore(step: Step, until: int) {
    step.Set? || (step.Pass? && step.now <= until)
  }

  /** Over every run of passes (and settings) up to the release time the ban stays as it is. */
  lemma {:induction false} BanHolds(accepts: Acceptor, s: System, steps: seq<Step>, t: string, at: int, until: int)
    requires Invariant(accepts, s) && s.running && Legal(accepts, s, steps)
    requires forall step :: step in steps ==> PassBefore(step, until)
    requires HasBan(s.jail.hosts, t, at, until)
    ensures var s' := Run(accepts, s, steps);
            Invariant(accepts, s') && s'.running && HasBan(s'.jail.hosts, t, at, until) && t in s'.jail.backend
  {
    if steps == [] {
      assert Agreed(s.jail);
    } else {
      var init, step := steps[..|steps| - 1], steps[|steps| - 1];
      BanHolds(accepts, s, init, t, at, until);
      var s0 := Run(accepts, s, init);
      StepKeepsInvariant(accepts, s0, step);
      assert PassBefore(step, until);
      if step.Pass? { PassOnBan(accepts, s0, step.now, step.events, t, at, until); }
    }
  }

  /** The first pass after the release time ends the ban. */
  lemma BanEnds(accepts: Acceptor, s: System, steps: seq<Step>, now: nat, events: seq<Event>,
                t: string, at: int, until: int)
    requires Invariant(accepts, s) && s.running && Legal(accepts, s, steps)
    requires forall step :: step in steps ==> PassBefore(step, until)
    requires HasBan(s.jail.hosts, t, at, until)
    requires Allowed(accepts, Run(accepts, s, steps), Pass(now, events)) && now > until
    ensures t !in Run(accepts, s, steps + [Pass(now, events)]).jail.backend
  {
    BanHolds(accepts, s, steps, t, at, until);
    RunOneMore(accepts, s, steps, Pass(now, events));
    PassOnBan(accepts, Run(accepts, s, steps), now, events, t, at, until);
  }

  /** An operator's ban counts from when the host was last seen, not from now: it outlives a pass
      without new matches exactly while that time plus the ban length has not passed. */
  lemma OperatorBanOutlives(accepts: Acceptor, s: System, ip: string, now: nat, later: nat)
    requires Invariant(accepts, s) && s.running && s.clock <= now <= later
    requires Lookup(s.jail.hosts, ip) < |s.jail.hosts|
    ensures var h := s.jail.hosts[Lookup(s.jail.hosts, ip)];
            ip in Next(accepts, Next(accepts, s, Command(now, 1, ip)), Pass(later, [])).jail.backend
            <==> later <= h.lastseen + BanTime(s.cfg, h.bancount)
  {
    var i := Lookup(s.jail.hosts, ip);
    LookupFinds(s.jail.hosts, ip);
    var h := BannedHost(s.cfg, s.jail.hosts[i]);
    var s1 := Next(accepts, s, Command(now, 1, ip));
    StepKeepsInvariant(accepts, s, Command(now, 1, ip));
    assert s1.jail.hosts[i] == h;
    assert HasBan(s1.jail.hosts, ip, h.bannedAt, h.releaseAt) by { assert h in s1.jail.hosts; }
    PassOnBan(accepts, s1, later, [], ip, h.bannedAt, h.releaseAt);
  }

  // --- successive bans of one host do not get shorter ---

  lemma TruncateMonotone(x: real, y: real)
    requires 0.0 <= x <= y
    ensures 0 <= Truncate(x) <= Truncate(y)
  {}

  lemma ProductMonotone(m: nat, n: nat, x: real)
    requires m <= n && x >= 0.0
    ensures 0.0 <= m as real * x <= n as real * x
  {}

  lemma BanTimeMonotone(c: Config, m: nat, n: nat)
    requires m <= n && c.bantime > 0
    ensures c.bantime <= BanTime(c, m) <= BanTime(c, n)
  {
    if c.bantimeExtend > 0.0 {
      var x := c.bantime as real * c.bantimeExtend;
      ProductMonotone(m, n, x);
      TruncateMonotone(m as real * x, n as real * x);
    }
  }

  lemma Products(b: real, n: real, e: real)
    ensures n * (b * e) == b * (n * e) && b * (e * n) == b * (n * e) && b + b * (n * e) == b * (1.0 + n * e)
  {}

  /** The conversion to an integer rounds toward zero. */
  lemma TruncateTowardZero(x: real)
    ensures x >= 0.0 ==> x - 1.0 < Truncate(x) as real <= x
    ensures x <= 0.0 ==> x <= Truncate(x) as real < x + 1.0
  {}

  /** Without an extension factor every ban has the same length. */
  lemma BanTimeFixed(c: Config, n: nat)
    requires c.bantimeExtend <= 0.0
    ensures BanTime(c, n) == c.bantime
  {}

  /** The length of a ban is bantime * (1 + bancount * bantime_extend), rounded down. */
  lemma BanTimeValue(c: Config, n: nat)
    requires c.bantime > 0 && c.bantimeExtend >= 0.0
    ensures var exact := c.bantime as real * (1.0 + n as real * c.bantimeExtend);
            exact - 1.0 < BanTime(c, n) as real <= exact
  {
    var b, e := c.bantime as real, c.bantimeExtend;
    Products(b, n as real, e);
    if e > 0.0 {
      ProductMonotone(0, n, b * e);
      TruncateTowardZero(n as real * (b * e));
    } else {
      assert n as real * e == 0.0;
      assert b * 0.0 == 0.0;
    }
  }

  /** The depth of the history is findtime * (1 + bancount * findtime_extend), rounded toward zero. */
  lemma FindTimeValue(c: Config, n: nat)
    ensures var exact := c.findtime as real * (1.0 + n as real * c.findtimeExtend);
            && (exact >= 0.0 ==> exact - 1.0 < FindTime(c, n) as real <= exact)
            && (exact <= 0.0 ==> exact <= FindTime(c, n) as real < exact + 1.0)
  {
    var f, e := c.findtime as real, c.findtimeExtend;
    Products(f, n as real, e);
    TruncateTowardZero(f + f * (e * n as real));
  }

  function Length(h: Host): int { h.releaseAt - h.bannedAt }

  /** The host has been banned at least n times, and its ban has the length that count asks for. */
  ghost predicate Counted(c: Config, h: Host, n: nat) {
    h.bancount >= n && (h.banned ==> h.bancount > 0 && Length(h) == BanTime(c, h.bancount - 1))
  }

  ghost predicate Tracked(c: Config, hosts: seq<Host>, t: string, n: nat) {
    exists h :: h in hosts && h.text == t && Counted(c, h, n)
  }

  ghost predicate Listed(hosts: seq<Host>, t: string) {
    exists h :: h in hosts && h.text == t
  }

  lemma HostOnMatchCounted(c: Config, h: Host, m: Match, n: nat)
    requires Counted(c, h, n)
    ensures Counted(c, HostOnMatch(c, h, m), n)
    ensures HostOnMatch(c, h, m).text == h.text
  {
    hide BanTime, Triggers;
  }

  lemma OnMatchTracks(c: Config, j: Jail, text: string, m: Match, t: string, n: nat)
    requires Tracked(c, j.hosts, t, n)
    ensures Tracked(c, OnMatch(c, j, text, m).hosts, t, n)
  {
    hide Counted, HostOnMatch, Triggers;
    var hosts := FindOrCreate(j.hosts, text);
    var h :| h in j.hosts && h.text == t && Counted(c, h, n);
    assert h in hosts;
    var k :| 0 <= k < |hosts| && hosts[k] == h;
    var hosts' := OnMatch(c, j, text, m).hosts;
    HostOnMatchCounted(c, h, m, n);
    assert hosts'[k] in hosts';
  }

  lemma {:induction false} OnEventsTrack(c: Config, j: Jail, events: seq<Event>, now: nat, t: string, n: nat)
    requires Tracked(c, j.hosts, t, n)
    ensures Tracked(c, OnEvents(c, j, events, now).hosts, t, n)
  {
    if events != [] {
      var e := events[|events| - 1];
      OnEventsTrack(c, j, events[..|events| - 1], now, t, n);
      OnMatchTracks(c, OnEvents(c, j, events[..|events| - 1], now), e.text, Matched(c, e, now), t, n);
    }
  }

  lemma SweepTracks(c: Config, hosts: seq<Host>, now: nat, t: string, n: nat)
    requires UniqueTexts(hosts) && Tracked(c, hosts, t, n) && Listed(SweepHosts(c, hosts, now), t)
    ensures Tracked(c, SweepHosts(c, hosts, now), t, n)
  {
    SweepMembers(c, hosts, now);
    var h :| h in hosts && h.text == t && Counted(c, h, n);
    var g :| g in SweepHosts(c, hosts, now) && g.text == t;
    var f :| f in hosts && g == SweptHost(f, now);
    SameText(hosts, f, h);
    assert Counted(c, g, n);
  }

  lemma CommandTracks(accepts: Acceptor, c: Config, j: Jail, op: int, ip: string, now: nat, t: string, n: nat)
    requires Tracked(c, j.hosts, t, n)
    ensures Tracked(c, Operate(accepts, c, j, op, ip, now).0.hosts, t, n)
  {
    var h :| h in j.hosts && h.text == t && Counted(c, h, n);
    var k :| 0 <= k < |j.hosts| && j.hosts[k] == h;
    var hosts' := Operate(accepts, c, j, op, ip, now).0.hosts;
    if Lookup(j.hosts, ip) >= |j.hosts| {
      assert hosts' == j.hosts || (|hosts'| == |j.hosts| + 1 && hosts'[k + 1] == h);
      assert h in hosts';
    } else {
      assert hosts'[k] in hosts' && Counted(c, hosts'[k], n);
    }
  }

  lemma StepTracks(accepts: Acceptor, s: System, step: Step, t: string, n: nat)
    requires Invariant(accepts, s) && Allowed(accepts, s, step) && (step.Pass? || step.Command?)
    requires Tracked(s.cfg, s.jail.hosts, t, n) && Listed(Next(accepts, s, step).jail.hosts, t)
    ensures Tracked(s.cfg, Next(accepts, s, step).jail.hosts, t, n)
  {
    var c, j := s.cfg, s.jail;
    if step.Pass? {
      var es := if c.hasSource then step.events else [];
      OnEventsConsistent(accepts, c, j, es, s.clock, step.now);
      OnEventsTrack(c, j, es, step.now, t, n);
      hide Tracked;
      SweepTracks(c, OnEvents(c, j, es, step.now).hosts, step.now, t, n);
    } else {
      hide Tracked;
      CommandTracks(accepts, c, j, step.op, step.ip, step.now, t, n);
    }
  }

  ghost predicate ListedThroughout(accepts: Acceptor, s: System, steps: seq<Step>, t: string) {
    Listed(Run(accepts, s, steps).jail.hosts, t) &&
    (steps == [] || ListedThroughout(accepts, s, steps[..|steps| - 1], t))
  }

  lemma {:induction false} RunTracks(accepts: Acceptor, s: System, steps: seq<Step>, t: string, n: nat)
    requires Invariant(accepts, s) && s.running && Legal(accepts, s, steps)
    requires forall step :: step in steps ==> step.Pass? || step.Command?
    requires Tracked(s.cfg, s.jail.hosts, t, n) && ListedThroughout(accepts, s, steps, t)
    ensures var s' := Run(accepts, s, steps);
            Invariant(accepts, s') && s'.running && s'.cfg == s.cfg && Tracked(s.cfg, s'.jail.hosts, t, n)
  {
    if steps != [] {
      var init, step := steps[..|steps| - 1], steps[|steps| - 1];
      RunTracks(accepts, s, init, t, n);
      assert step in steps;
      StepTracks(accepts, Run(accepts, s, init), step, t, n);
      StepKeepsInvariant(accepts, Run(accepts, s, init), step);
    }
  }

  /** While a host stays listed and the parameters stay fixed, a later ban is at least as long. */
  lemma BansDoNotShrink(accepts: Acceptor, s: System, steps: seq<Step>, h: Host, h': Host)
    requires Invariant(accepts, s) && s.running && Legal(accepts, s, steps)
    requires forall step :: step in steps ==> step.Pass? || step.Command?
    requires h in s.jail.hosts && h.banned && Counted(s.cfg, h, h.bancount)
    requires h' in Run(accepts, s, steps).jail.hosts && h'.banned && h'.text == h.text
    requires ListedThroughout(accepts, s, steps, h.text)
    ensures s.cfg.bantime <= Length(h) <= Length(h')
  {
    hide BanTime, Run, Legal, ListedThroughout, Allowed;
    var s' := Run(accepts, s, steps);
    assert Tracked(s.cfg, s.jail.hosts, h.text, h.bancount);
    RunTracks(accepts, s, steps, h.text, h.bancount);
    var g :| g in s'.jail.hosts && g.text == h.text && Counted(s.cfg, g, h.bancount);
    SameText(s'.jail.hosts, g, h');
    BanTimeMonotone(s.cfg, h.bancount - 1, h'.bancount - 1);
  }

  // --- from the start on ---

  /** Every host with bans on its count has them counted right, and is banned for as long as that asks. */
  ghost predicate AllCounted(c: Config, hosts: seq<Host>) {
    forall h :: h in hosts && h.bancount > 0 ==> Counted(c, h, h.bancount)
  }

  lemma MatchCounted(c: Config, h: Host, m: Match)
    requires h.bancount > 0 ==> Counted(c, h, h.bancount)
    ensures var g := HostOnMatch(c, h, m); g.bancount > 0 ==> Counted(c, g, g.bancount)
  {
    hide BanTime, Triggers;
  }

  lemma OnMatchAllCounted(c: Config, j: Jail, text: string, m: Match)
    requires AllCounted(c, j.hosts)
    ensures AllCounted(c, OnMatch(c, j, text, m).hosts)
  {
    hide HostOnMatch, Triggers, Counted;
    var hosts := FindOrCreate(j.hosts, text);
    LookupFinds(hosts, text);
    var i := Lookup(hosts, text);
    assert AllCounted(c, hosts);
    if i < |hosts| {
      assert hosts[i] in hosts;
      MatchCounted(c, hosts[i], m);
      forall g | g in OnMatch(c, j, text, m).hosts && g.bancount > 0 ensures Counted(c, g, g.bancount) {
        assert g == HostOnMatch(c, hosts[i], m) || g in hosts;
      }
    }
  }

  lemma {:induction false} OnEventsAllCounted(c: Config, j: Jail, events: seq<Event>, now: nat)
    requires AllCounted(c, j.hosts)
    ensures AllCounted(c, OnEvents(c, j, events, now).hosts)
  {
    hide AllCounted, OnMatch;
    if events != [] {
      var e := events[|events| - 1];
      OnEventsAllCounted(c, j, events[..|events| - 1], now);
      OnMatchAllCounted(c, OnEvents(c, j, events[..|events| - 1], now), e.text, Matched(c, e, now));
    }
  }

  lemma StepAllCounted(accepts: Acceptor, s: System, step: Step)
    requires (step.Pass? || step.Command?) && AllCounted(s.cfg, s.jail.hosts)
    ensures AllCounted(s.cfg, Next(accepts, s, step).jail.hosts)
  {
    hide BanTime;
    var c, j := s.cfg, s.jail;
    if step.Pass? {
      var es := if c.hasSource then step.events else [];
      OnEventsAllCounted(c, j, es, step.now);
      SweepMembers(c, OnEvents(c, j, es, step.now).hosts, step.now);
    } else {
      var hosts' := Operate(accepts, c, j, step.op, step.ip, step.now).0.hosts;
      var i := Lookup(j.hosts, step.ip);
      assert i < |j.hosts| ==> j.hosts[i] in j.hosts;
    }
  }

  /** Right after a start no host has bans on its count, so in every run of passes and commands after it
      every count is right; the first ban of a host then lasts as long as a first ban does. */
  lemma {:induction false} CountedSinceStart(accepts: Acceptor, s: System, now: nat, cfg: Config, steps: seq<Step>)
    requires forall step :: step in steps ==> step.Pass? || step.Command?
    ensures var s' := Run(accepts, Next(accepts, s, StartUp(now, cfg)), steps);
            && s'.cfg == cfg && s'.running && AllCounted(cfg, s'.jail.hosts)
            && forall h :: h in s'.jail.hosts && h.banned && h.bancount == 1 ==> Length(h) == BanTime(cfg, 0)
  {
    hide BanTime, Process, Operate;
    if steps != [] {
      var init, step := steps[..|steps| - 1], steps[|steps| - 1];
      CountedSinceStart(accepts, s, now, cfg, init);
      assert step in steps;
      hide AllCounted;
      StepAllCounted(accepts, Run(accepts, Next(accepts, s, StartUp(now, cfg)), init), step);
    }
  }

  lemma {:induction false} LegalRunInvariant(accepts: Acceptor, s: System, steps: seq<Step>)
    requires Invariant(accepts, s) && Legal(accepts, s, steps)
    ensures Invariant(accepts, Run(accepts, s, steps))
  {
    if steps != [] {
      LegalRunInvariant(accepts, s, steps[..|steps| - 1]);
      StepKeepsInvariant(accepts, Run(accepts, s, steps[..|steps| - 1]), steps[|steps| - 1]);
    }
  }

  /** After a start, whatever happened since: the bans that a listed host gets do not get shorter. A ban
      that the state file restored has no ban on its count and is not among them. */
  lemma LaterBansNotShorter(accepts: Acceptor, s: System, now: nat, cfg: Config, first: seq<Step>, more: seq<Step>,
                            h: Host, h': Host)
    requires Invariant(accepts, s) && Allowed(accepts, s, StartUp(now, cfg))
    requires forall step :: step in first + more ==> step.Pass? || step.Command?
    requires Legal(accepts, Next(accepts, s, StartUp(now, cfg)), first)
    requires Legal(accepts, Run(accepts, Next(accepts, s, StartUp(now, cfg)), first), more)
    requires h in Run(accepts, Next(accepts, s, StartUp(now, cfg)), first).jail.hosts && h.banned && h.bancount > 0
    requires h' in Run(accepts, Run(accepts, Next(accepts, s, StartUp(now, cfg)), first), more).jail.hosts
    requires h'.banned && h'.text == h.text
    requires ListedThroughout(accepts, Run(accepts, Next(accepts, s, StartUp(now, cfg)), first), more, h.text)
    ensures cfg.bantime <= Length(h) <= Length(h')
  {
    hide Run, Legal, Next, Invariant, Allowed, ListedThroughout, Counted;
    var s1 := Next(accepts, s, StartUp(now, cfg));
    StepKeepsInvariant(accepts, s, StartUp(now, cfg));
    assert forall step :: step in first || step in more ==> step in first + more;
    LegalRunInvariant(accepts, s1, first);
    CountedSinceStart(accepts, s, now, cfg, first);
    BansDoNotShrink(accepts, Run(accepts, s1, first), more, h, h');
  }
}
