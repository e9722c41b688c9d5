/** Runs on which a jail does not do what one would expect. */
module JailExamples {
  import opened Hosts
  import opened Matches
  import opened StateFile
  import opened Jail
  import opened JailInvariant
  import opened JailRuns
  import opened JailDecision
  import opened JailRestart

  const IP := "1.1.1.1"

  /** A plain jail: limit 50, five minutes back, bans of one hour. */
  function Plain(hasState: bool): Config {
    Config(true, hasState, true, true, true, 3600, 300, 14400, 50, 0.0, 0.0, 0.0)
  }

  function Hits(n: nat, score: int): seq<Event> {
    seq(n, _ => Event(IP, 1, 1, score))
  }

  /** The history that n hits at one time leave. */
  function History(n: nat, score: int, now: nat): Log {
    Log(seq(n, _ => Match(now, 1, 1, score)), n, if n == 0 then 0 else now)
  }

  lemma HistoryMore(n: nat, score: int, now: nat)
    ensures Prepend(History(n, score, now), Match(now, 1, 1, score)) == History(n + 1, score, now)
  {
    assert [Match(now, 1, 1, score)] + seq(n, _ => Match(now, 1, 1, score)) == seq(n + 1, _ => Match(now, 1, 1, score));
  }

  lemma {:induction false} HistoryTotal(n: nat, score: int, now: nat, before: int)
    requires now > before
    ensures var ms := History(n, score, now).list; Total(ms) == n * score && Newer(ms, before) == ms
  {
    if n > 0 {
      var ms := History(n, score, now).list;
      assert ms[1..] == History(n - 1, score, now).list;
      HistoryTotal(n - 1, score, now, before);
      assert ms == [ms[0]] + ms[1..];
    }
  }

  lemma PlainTimes(c: Config, n: nat)
    requires c == Plain(c.hasState)
    ensures FindTime(c, n) == 300 && BanTime(c, n) == 3600
  {
    assert 0.0 * (n as real) == 0.0;
    assert 300.0 * 0.0 == 0.0;
  }

  lemma HistoryEmpty(score: int, now: nat)
    ensures History(0, score, now) == EMPTY
  {}

  /** A hit on an unbanned host whose hits are all recent: its score is the 16-bit sum. */
  lemma HitOnHistory(c: Config, h: Host, n: nat, score: int, now: nat, later: nat)
    requires c == Plain(c.hasState) && !h.banned && h.matches == History(n, score, now) && 1000 < now <= later < now + 900
    ensures var m := Match(later, 1, 1, score);
            && (Triggers(c, h, m) <==> Int16((n + 1) * score) >= 50)
            && TrimmedHost(c, SeenHost(h, m), later)
            == h.(lastseen := later, matches := Prepend(History(n, score, now), m))
  {
    hide FindTime, Int16, Total, Newer, Score;
    var m := Match(later, 1, 1, score);
    var past := History(n, score, now).list;
    var all := [m] + past;
    PlainTimes(c, h.bancount);
    HistoryTotal(n, score, now, later - 900);
    OneMoreRecent(m, past, later - 900);
    ScoreOfRecentList(all, 300);
  }

  lemma OneMoreRecent(m: Match, ms: seq<Match>, before: int)
    requires m.time > before && Newer(ms, before) == ms
    ensures Newer([m] + ms, before) == [m] + ms && Total([m] + ms) == m.score + Total(ms)
  {
    assert ([m] + ms)[1..] == ms;
  }

  /** One hit on a jail that lists at most the host hit. */
  lemma HitOne(c: Config, j: Jail, h: Host, m: Match)
    requires h.text == IP && (j.hosts == [h] || (j.hosts == [] && h == NewHost(IP)))
    ensures OnMatch(c, j, IP, m) == MatchAt(c, j.(hosts := [h]), 0, m)
  {
    hide MatchAt;
    assert Lookup([h], IP) == 0;
    assert FindOrCreate(j.hosts, IP) == [h] by {
      if j.hosts == [] { assert [NewHost(IP)] + j.hosts == [NewHost(IP)]; }
    }
  }

  lemma HitsMore(n: nat, score: int, c: Config, j: Jail, now: nat)
    requires c.hasFilter
    ensures OnEvents(c, j, Hits(n + 1, score), now) == OnMatch(c, OnEvents(c, j, Hits(n, score), now), IP, Match(now, 1, 1, score))
  {
    hide OnMatch;
    assert Hits(n + 1, score)[..n] == Hits(n, score);
  }

  /** Hits on an empty jail that stay below the limit. */
  lemma {:induction false} QuietHits(c: Config, j: Jail, n: nat, score: int, now: nat)
    requires c == Plain(c.hasState) && j.hosts == [] && n > 0 && now > 1000
    requires forall k :: 0 < k <= n ==> Int16(k * score) < 50
    ensures var j' := OnEvents(c, j, Hits(n, score), now);
            && j'.hosts == [NewHost(IP).(lastseen := now, matches := History(n, score, now))]
            && j'.backend == j.backend && j'.needSave == j.needSave && j'.file == j.file
  {
    hide Int16, Triggers, TrimmedHost, OnMatch, Prepend, History;
    var h := NewHost(IP).(matches := History(n - 1, score, now), lastseen := if n == 1 then 0 else now);
    var m := Match(now, 1, 1, score);
    HitsMore(n - 1, score, c, j, now);
    if n > 1 { QuietHits(c, j, n - 1, score, now); } else { HistoryEmpty(score, now); }
    HitOne(c, OnEvents(c, j, Hits(n - 1, score), now), h, m);
    HitOnHistory(c, h, n - 1, score, now, now);
    HistoryMore(n - 1, score, now);
    assert n * score == (n - 1 + 1) * score;
  }

  /** A pass without anything to release, expire or save. */
  lemma PassKeeps(c: Config, j: Jail, events: seq<Event>, now: nat, h: Host)
    requires c == Plain(c.hasState) && OnEvents(c, j, events, now).hosts == [h]
    requires (h.banned ==> now <= h.releaseAt) && h.lastseen == now
    ensures var j1, j' := OnEvents(c, j, events, now), Process(c, j, events, now);
            && j'.hosts == [h] && j'.backend == j1.backend
            && (!j1.needSave || !c.hasState ==> j'.file == j1.file && j'.needSave == j1.needSave)
  {
    hide OnEvents;
    var hosts := [h];
    assert hosts[..0] == [] && SweptHost(h, now) == h && SweepHosts(c, [], now) == [];
    assert SweepHosts(c, hosts, now) == [h];
    assert Freed(hosts, now) == {};
  }

  // --- a ban that is not due ---

  /** The 33rd of these hits bans a host whose score is far below zero. */
  lemma UndueHits(c: Config, j: Jail, now: nat)
    requires c == Plain(c.hasState) && j.hosts == [] && now > 1000
    ensures var j' := OnEvents(c, j, Hits(33, -1000), now);
            && j'.hosts == [BannedHost(c, NewHost(IP).(lastseen := now))] && j'.backend == j.backend + {IP}
    ensures WindowSum(c, NewHost(IP).(matches := History(32, -1000, now)), Match(now, 1, 1, -1000)) == -33_000
  {
    hide Triggers, TrimmedHost, OnMatch, Prepend, History, BanTime;
    forall k | 0 < k <= 32 ensures Int16(k * -1000) < 50 { assert -32_000 <= k * -1000 < 0; }
    QuietHits(c, j, 32, -1000, now);
    HitsMore(32, -1000, c, j, now);
    var h := NewHost(IP).(lastseen := now, matches := History(32, -1000, now));
    var m := Match(now, 1, 1, -1000);
    HitOne(c, OnEvents(c, j, Hits(32, -1000), now), h, m);
    HitOnHistory(c, h, 32, -1000, now, now);
    assert Int16(33 * -1000) == 32_536;
    RecentSum(c, 32, -1000, now, now);
  }

  lemma RecentSum(c: Config, n: nat, score: int, now: nat, later: nat)
    requires c == Plain(c.hasState) && 1000 < now <= later < now + 900
    ensures forall h: Host :: h.matches == History(n, score, now)
              ==> WindowSum(c, h, Match(later, 1, 1, score)) == (n + 1) * score
  {
    forall h: Host | h.matches == History(n, score, now)
      ensures WindowSum(c, h, Match(later, 1, 1, score)) == (n + 1) * score
    {
      hide FindTime, Total, Newer;
      PlainTimes(c, h.bancount);
      HistoryTotal(n, score, now, Later(later - 900, 299));
      OneMoreRecent(Match(later, 1, 1, score), History(n, score, now).list, Later(later - 900, 299));
    }
  }

  lemma LegalMore(accepts: Acceptor, s: System, steps: seq<Step>, step: Step)
    ensures Legal(accepts, s, steps + [step]) <==> Legal(accepts, s, steps) && Allowed(accepts, Run(accepts, s, steps), step)
  {
    hide Allowed, Run;
    assert (steps + [step])[..|steps|] == steps;
  }

  /** A run of one more step. */
  lemma Further(accepts: Acceptor, s: System, steps: seq<Step>, step: Step)
    requires Legal(accepts, s, steps) && Allowed(accepts, Run(accepts, s, steps), step)
    ensures Legal(accepts, s, steps + [step])
    ensures Run(accepts, s, steps + [step]) == Next(accepts, Run(accepts, s, steps), step)
  {
    hide *;
    LegalMore(accepts, s, steps, step);
    RunOneMore(accepts, s, steps, step);
  }

  /** A first start of a plain jail, with an empty state file or none. */
  lemma FirstStart(accepts: Acceptor, s: System, now: nat, c: Config)
    requires Initial(accepts, s) && s.clock <= now && c == Plain(c.hasState) && (c.hasState ==> s.jail.file == "")
    ensures var s1 := Next(accepts, s, StartUp(now, c));
            && Legal(accepts, s, [StartUp(now, c)]) && Run(accepts, s, [StartUp(now, c)]) == s1
            && s1.running && s1.clock == now && s1.cfg == c && s1.jail.hosts == [] && s1.jail.backend == {}
            && !s1.jail.needSave && s1.jail.file == s.jail.file
  {
    assert Load(accepts, "") == [];
    hide Load;
    assert [] + [StartUp(now, c)] == [StartUp(now, c)];
    Further(accepts, s, [], StartUp(now, c));
  }

  lemma HitsValid(accepts: Acceptor, c: Config, n: nat, score: int)
    requires ValidAddress(accepts, IP)
    ensures ValidEvents(accepts, c, Hits(n, score))
  {}

  /** A ban that is not due: a host of 33 hits with a score of -1000 each, never banned before, is banned
      at a limit of 50. */
  lemma UndueBan(accepts: Acceptor, s: System, now: nat)
    requires Initial(accepts, s) && s.clock <= now && now > 1000 && ValidAddress(accepts, IP)
    ensures var steps := [StartUp(now, Plain(false)), Pass(now, Hits(33, -1000))];
            Legal(accepts, s, steps) && IP in Run(accepts, s, steps).jail.backend
    ensures WindowSum(Plain(false), NewHost(IP).(matches := History(32, -1000, now)), Match(now, 1, 1, -1000)) == -33_000
  {
    hide Run, Legal, Next, Initial, OnEvents, Process, WindowSum;
    var c := Plain(false);
    var pass := Pass(now, Hits(33, -1000));
    FirstStart(accepts, s, now, Plain(false));
    var s1 := Run(accepts, s, [StartUp(now, c)]);
    HitsValid(accepts, c, 33, -1000);
    Further(accepts, s, [StartUp(now, c)], pass);
    assert [StartUp(now, c)] + [pass] == [StartUp(now, c), pass];
    UndueHits(c, s1.jail, now);
    PlainTimes(c, 0);
    PassKeeps(c, s1.jail, Hits(33, -1000), now, BannedHost(c, NewHost(IP).(lastseen := now)));
    PassIs(accepts, s1, now, Hits(33, -1000));
  }

  lemma PassIs(accepts: Acceptor, s: System, now: nat, events: seq<Event>)
    ensures Next(accepts, s, Pass(now, events)) == s.(clock := now, jail := Process(s.cfg, s.jail, events, now))
  {}

  // --- a due ban that is lost ---

  /** A host banned by its first hit, with the hits since. */
  function Collecting(c: Config, n: nat, score: int, now: nat): Host {
    BannedHost(c, NewHost(IP).(lastseen := now)).(matches := History(n, score, now))
  }

  lemma {:induction false} BanThenCollect(c: Config, j: Jail, n: nat, now: nat)
    requires c == Plain(c.hasState) && j.hosts == [] && now > 1000
    ensures var j' := OnEvents(c, j, Hits(n + 1, 1000), now);
            j'.hosts == [Collecting(c, n, 1000, now)] && j'.backend == j.backend + {IP}
  {
    hide Triggers, TrimmedHost, OnMatch, Prepend, History, BanTime;
    HitsMore(n, 1000, c, j, now);
    HistoryEmpty(1000, now);
    var m := Match(now, 1, 1, 1000);
    if n == 0 {
      assert OnEvents(c, j, Hits(0, 1000), now) == j;
      HitOne(c, j, NewHost(IP), m);
      HitOnHistory(c, NewHost(IP), 0, 1000, now, now);
      assert Int16(1000) == 1000;
    } else {
      BanThenCollect(c, j, n - 1, now);
      HitOne(c, OnEvents(c, j, Hits(n, 1000), now), Collecting(c, n - 1, 1000, now), m);
      HistoryMore(n - 1, 1000, now);
    }
  }

  /** The same host once the operator has released it. */
  function Released(n: nat, now: nat): Host {
    ReleasedHost(Collecting(Plain(false), n, 1000, now))
  }

  lemma ReleaseOne(accepts: Acceptor, c: Config, j: Jail, h: Host, now: nat)
    requires j.hosts == [h] && h.text == IP && c.hasBackend
    ensures Operate(accepts, c, j, -1, IP, now).0 == j.(hosts := [ReleasedHost(h)], backend := j.backend - {IP})
  {
    assert Lookup([h], IP) == 0;
    assert [h][0 := ReleasedHost(h)] == [ReleasedHost(h)];
  }

  lemma CommandIs(accepts: Acceptor, s: System, now: nat, op: int, ip: string)
    ensures Next(accepts, s, Command(now, op, ip)) == s.(clock := now, jail := Operate(accepts, s.cfg, s.jail, op, ip, now).0)
  {}

  /** One more hit on the released host: 33 of them add up to 33000, and it is not banned. */
  lemma LostHit(j: Jail, now: nat, later: nat)
    requires j.hosts == [Released(32, now)] && 1000 < now <= later < now + 900
    ensures var j' := OnEvents(Plain(false), j, Hits(1, 1000), later);
            var matches := Prepend(History(32, 1000, now), Match(later, 1, 1, 1000));
            j'.hosts == [Released(32, now).(lastseen := later, matches := matches)] && j'.backend == j.backend
  {
    hide Triggers, TrimmedHost, OnMatch, Prepend, History, BanTime;
    var m := Match(later, 1, 1, 1000);
    HitsMore(0, 1000, Plain(false), j, later);
    assert OnEvents(Plain(false), j, Hits(0, 1000), later) == j;
    HitOne(Plain(false), j, Released(32, now), m);
    HitOnHistory(Plain(false), Released(32, now), 32, 1000, now, later);
    assert Int16(33 * 1000) == -32_536;
  }

  /** The run: 33 hits at once ban the host with the first and pile up the rest, the operator releases
      it, and one more hit comes. */
  function LostRun(now: nat, later: nat): seq<Step> {
    [StartUp(now, Plain(false)), Pass(now, Hits(33, 1000)), Command(later, -1, IP), Pass(later, Hits(1, 1000))]
  }

  /** After the release the host is listed, with hits that pile up to 32000 and the next one still due. */
  lemma LostBanSetUp(accepts: Acceptor, s: System, now: nat, later: nat)
    requires Initial(accepts, s) && s.clock <= now < later < now + 900 && now > 1000 && ValidAddress(accepts, IP)
    ensures var s3 := Run(accepts, s, LostRun(now, later)[..3]);
            && Legal(accepts, s, LostRun(now, later)[..3])
            && s3.running && s3.clock == later && s3.cfg == Plain(false)
            && s3.jail.hosts == [Released(32, now)] && s3.jail.backend == {}
  {
    hide Run, Legal, Next, Initial, OnEvents, Process, Operate;
    var c := Plain(false);
    var start, pass, release := StartUp(now, c), Pass(now, Hits(33, 1000)), Command(later, -1, IP);
    FirstStart(accepts, s, now, Plain(false));
    var s1 := Run(accepts, s, [start]);
    HitsValid(accepts, c, 33, 1000);
    Further(accepts, s, [start], pass);
    BanThenCollect(c, s1.jail, 32, now);
    PlainTimes(c, 0);
    PassIs(accepts, s1, now, Hits(33, 1000));
    PassKeeps(c, s1.jail, Hits(33, 1000), now, Collecting(c, 32, 1000, now));
    var s2 := Run(accepts, s, [start] + [pass]);
    Further(accepts, s, [start] + [pass], release);
    assert LostRun(now, later)[..3] == [start] + [pass] + [release];
    CommandIs(accepts, s2, later, -1, IP);
    ReleaseOne(accepts, c, s2.jail, Collecting(c, 32, 1000, now), later);
  }

  /** A due ban that is lost, at a limit of 50 and a sum of 33000. */
  lemma LostBan(accepts: Acceptor, s: System, now: nat, later: nat)
    requires Initial(accepts, s) && s.clock <= now < later < now + 900 && now > 1000 && ValidAddress(accepts, IP)
    ensures Legal(accepts, s, LostRun(now, later)) && IP !in Run(accepts, s, LostRun(now, later)).jail.backend
    ensures Run(accepts, s, LostRun(now, later)[..3]).jail.hosts == [Released(32, now)]
    ensures WindowSum(Plain(false), Released(32, now), Match(later, 1, 1, 1000)) == 33_000
  {
    hide Run, Legal, Next, Initial, OnEvents, Process, WindowSum, BannedHost, Prepend;
    var c := Plain(false);
    var hit := Pass(later, Hits(1, 1000));
    var s3 := Run(accepts, s, LostRun(now, later)[..3]);
    LostBanSetUp(accepts, s, now, later);
    HitsValid(accepts, c, 1, 1000);
    Further(accepts, s, LostRun(now, later)[..3], hit);
    assert LostRun(now, later) == LostRun(now, later)[..3] + [hit];
    LostHit(s3.jail, now, later);
    PassIs(accepts, s3, later, Hits(1, 1000));
    PassKeeps(c, s3.jail, Hits(1, 1000), later, OnEvents(c, s3.jail, Hits(1, 1000), later).hosts[0]);
    RecentSum(c, 32, 1000, now, later);
    assert Released(32, now).matches == History(32, 1000, now);
  }

  // --- a ban that a restart forgets ---

  lemma BanOne(accepts: Acceptor, c: Config, j: Jail, h: Host, now: nat)
    requires j.hosts == [h] && h.text == IP && c.hasBackend
    ensures var j' := Operate(accepts, c, j, 1, IP, now).0;
            j'.hosts == [BannedHost(c, h)] && j'.backend == j.backend + {IP} && j'.file == j.file
  {
    assert Lookup([h], IP) == 0;
    assert [h][0 := BannedHost(c, h)] == [BannedHost(c, h)];
  }

  /** The run: one harmless hit, then a ban by the operator. */
  function ForgottenRun(now: nat): seq<Step> {
    [StartUp(now, Plain(true)), Pass(now, Hits(1, 10)), Command(now, 1, IP)]
  }

  lemma ForgottenSetUp(accepts: Acceptor, s: System, now: nat)
    requires Initial(accepts, s) && s.jail.file == "" && s.clock <= now && now > 1000 && ValidAddress(accepts, IP)
    ensures var s2 := Run(accepts, s, ForgottenRun(now)[..2]);
            && Legal(accepts, s, ForgottenRun(now)[..2])
            && s2.running && s2.clock == now && s2.cfg == Plain(true) && s2.jail.file == "" && !s2.jail.needSave
            && s2.jail.hosts == [NewHost(IP).(lastseen := now, matches := History(1, 10, now))]
  {
    hide Run, Legal, Next, Initial, OnEvents, Process;
    var c := Plain(true);
    var start, pass := StartUp(now, c), Pass(now, Hits(1, 10));
    FirstStart(accepts, s, now, c);
    var s1 := Run(accepts, s, [start]);
    HitsValid(accepts, c, 1, 10);
    Further(accepts, s, [start], pass);
    assert ForgottenRun(now)[..2] == [start] + [pass];
    assert Int16(1 * 10) == 10;
    QuietHits(c, s1.jail, 1, 10, now);
    PassIs(accepts, s1, now, Hits(1, 10));
    PassKeeps(c, s1.jail, Hits(1, 10), now, NewHost(IP).(lastseen := now, matches := History(1, 10, now)));
  }

  /** A ban that a restart loses: the operator bans a listed host for an hour, the daemon stops and
      starts within the hour, and the host is free. */
  lemma ForgottenBan(accepts: Acceptor, s: System, now: nat, later: nat)
    requires Initial(accepts, s) && s.jail.file == "" && s.clock <= now <= later < now + 3600
    requires now > 1000 && ValidAddress(accepts, IP)
    ensures Legal(accepts, s, ForgottenRun(now) + [ShutDown] + [StartUp(later, Plain(true))])
    ensures var j := Run(accepts, s, ForgottenRun(now)).jail;
            IP in j.backend && |j.hosts| == 1 && j.hosts[0].text == IP && j.hosts[0].releaseAt > later
    ensures IP !in Run(accepts, s, ForgottenRun(now) + [ShutDown] + [StartUp(later, Plain(true))]).jail.backend
  {
    hide Run, Legal, Initial, Process, Load, Operate, Start, Stop, InForce, Invariant;
    var c := Plain(true);
    var ban := Command(now, 1, IP);
    ForgottenSetUp(accepts, s, now);
    var s2 := Run(accepts, s, ForgottenRun(now)[..2]);
    assert ForgottenRun(now) == ForgottenRun(now)[..2] + [ban];
    Further(accepts, s, ForgottenRun(now)[..2], ban);
    Further(accepts, s, ForgottenRun(now), ShutDown);
    Further(accepts, s, ForgottenRun(now) + [ShutDown], StartUp(later, c));
    BanOne(accepts, c, s2.jail, s2.jail.hosts[0], now);
    PlainTimes(c, 0);
    RunKeepsInvariant(accepts, s, ForgottenRun(now)[..2]);
    assert Lookup(s2.jail.hosts, IP) == 0;
    CommandForgotten(accepts, s2, now, 1, IP, later, c);
    NothingOnFile(accepts, later);
  }

  lemma NothingOnFile(accepts: Acceptor, now: nat)
    ensures InForce(Load(accepts, ""), now) == {}
  {
    assert Load(accepts, "") == [];
  }
}
