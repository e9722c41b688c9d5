/** What decides a ban: which matches count, and what narrowing their sum to 16 bits does. */
module JailDecision {
  import opened Hosts
  import opened Matches
  import opened Jail
  import opened JailInvariant
  import opened JailRuns

  // --- what decides a ban ---

  lemma {:induction false} NewerTwice(ms: seq<Match>, a: int, b: int)
    ensures Newer(Newer(ms, a), b) == Newer(ms, Later(a, b))
  {
    if ms != [] {
      NewerTwice(ms[1..], a, b);
      assert ([ms[0]] + Newer(ms[1..], a))[1..] == Newer(ms[1..], a);
    }
  }

  /** The score of a host counts exactly the matches of the last findtime + 600 seconds, except those
      that carry a time below findtime itself. */
  lemma DecisionWindow(accepts: Acceptor, c: Config, h: Host, m: Match, clock: nat)
    requires HostSound(accepts, h, clock) && m.time >= clock
    ensures var f := FindTime(c, h.bancount);
            var window := Later(m.time - f - EXTRA_WINDOW, f - 1);
            WideScore(c, TrimmedHost(c, SeenHost(h, m), m.time)) == Total(Newer([m] + h.matches.list, window))
  {
    hide FindTime, Score, Total, Newer;
    var all := [m] + h.matches.list;
    var f := FindTime(c, h.bancount);
    PrependKeepsSound(h.matches, m, clock);
    NewerIsSorted(all, m.time - f - EXTRA_WINDOW);
    ScoreIsTotalOfRecent(Newer(all, m.time - f - EXTRA_WINDOW), f);
    NewerTwice(all, m.time - f - EXTRA_WINDOW, f - 1);
  }

  ghost predicate ScoresWithin(ms: seq<Match>, c: Config, max: int) {
    forall m :: m in ms ==> 0 <= m.score <= max && m.time >= c.findtime
  }

  /** A never banned host holds less than the score limit. */
  ghost predicate Quiet(c: Config, h: Host, max: int) {
    h.bancount == 0 && !h.banned ==> Total(h.matches.list) < c.banscore && ScoresWithin(h.matches.list, c, max)
  }

  lemma FindTimeOfNewHost(c: Config)
    requires c.findtime > 0
    ensures FindTime(c, 0) == c.findtime
  {
    var zero := c.findtimeExtend * (0 as real);
    assert zero == 0.0;
    assert c.findtime as real * zero == 0.0;
  }

  lemma {:induction false} NewerTotal(ms: seq<Match>, before: int)
    requires forall m :: m in ms ==> m.score >= 0
    ensures 0 <= Total(Newer(ms, before)) <= Total(ms)
  {
    if ms != [] {
      assert ms[0] in ms;
      NewerTotal(ms[1..], before);
    }
  }

  lemma NoWrap(n: int)
    requires -0x8000 <= n < 0x8000
    ensures Int16(n) == n
  {}

  /** For a host without earlier bans and scores that are not negative the 16-bit score is the exact
      score, so narrowing it never changes the decision; and without a ban the host stays below the limit. */
  lemma DecisionExact(c: Config, h: Host, m: Match, max: int)
    requires c.findtime > 0 && h.bancount == 0 && !h.banned
    requires Total(h.matches.list) < (if c.banscore > 0 then c.banscore else 1)
    requires ScoresWithin([m] + h.matches.list, c, max)
    requires max < 0x8000 && c.banscore + max <= 0x8000
    ensures var score := WideScore(c, TrimmedHost(c, SeenHost(h, m), m.time));
            Int16(score) == score && (Triggers(c, h, m) <==> score >= c.banscore)
    ensures Quiet(c, HostOnMatch(c, h, m), max)
  {
    var seen := SeenHost(h, m);
    var trimmed := TrimmedHost(c, seen, m.time);
    var list := trimmed.matches.list;
    FindTimeOfNewHost(c);
    NewerIsSubsequence(seen.matches.list, m.time - c.findtime - EXTRA_WINDOW);
    ScoreOfRecentList(list, c.findtime);
    assert seen.matches.list[1..] == h.matches.list;
    NewerTotal(seen.matches.list, m.time - c.findtime - EXTRA_WINDOW);
    assert m in [m] + h.matches.list;
    NoWrap(WideScore(c, trimmed));
    hide Int16;
  }

  /** Narrowing to 16 bits leaves a comparison with a 16-bit limit right exactly for sums that fit, and
      for those that wrap to the same side of the limit. */
  lemma NarrowingExactWhen(n: int, limit: int)
    requires -0x8000 <= limit < 0x8000
    ensures (Int16(n) >= limit <==> n >= limit)
       <==> -0x8000 <= n < 0x8000 || (n >= 0x8000 && Int16(n) >= limit) || (n < -0x8000 && Int16(n) < limit)
  {}

  /** The sum over the matches that a decision is about. */
  function WindowSum(c: Config, h: Host, m: Match): int {
    var f := FindTime(c, h.bancount);
    Total(Newer([m] + h.matches.list, Later(m.time - f - EXTRA_WINDOW, f - 1)))
  }

  /** When a match is misjudged: a due ban is lost exactly on sums above 16 bits that wrap below the
      limit, and a ban comes undue exactly on sums below 16 bits that wrap to the limit or above. */
  lemma MisjudgedWhen(accepts: Acceptor, c: Config, h: Host, m: Match, clock: nat)
    requires HostSound(accepts, h, clock) && m.time >= clock && !h.banned && -0x8000 <= c.banscore < 0x8000
    ensures var sum := WindowSum(c, h, m);
            && (sum >= c.banscore && !Triggers(c, h, m) <==> sum >= 0x8000 && Int16(sum) < c.banscore)
            && (sum < c.banscore && Triggers(c, h, m) <==> sum < -0x8000 && Int16(sum) >= c.banscore)
  {
    DecisionWindow(accepts, c, h, m, clock);
    hide WideScore, FindTime, Total, Newer, TrimmedHost;
    NarrowingExactWhen(WindowSum(c, h, m), c.banscore);
  }

  lemma {:induction false} TotalBounds(ms: seq<Match>, before: int, max: int)
    requires max >= 0 && forall m :: m in ms ==> -max <= m.score <= max
    ensures -(|ms| * max) <= Total(Newer(ms, before)) <= |ms| * max
  {
    if ms != [] {
      assert ms[0] in ms;
      TotalBounds(ms[1..], before, max);
      assert |ms| * max == |ms[1..]| * max + max;
    }
  }

  /** Whatever the signs of the scores and the bans before: while the number of matches on record times
      the largest score fits 16 bits, every match is judged by the exact sum. */
  lemma FewMatchesExact(accepts: Acceptor, c: Config, h: Host, m: Match, clock: nat, max: int)
    requires HostSound(accepts, h, clock) && m.time >= clock && !h.banned && -0x8000 <= c.banscore < 0x8000
    requires forall p :: p in [m] + h.matches.list ==> -max <= p.score <= max
    requires max >= 0 && (|h.matches.list| + 1) * max < 0x8000
    ensures Triggers(c, h, m) <==> WindowSum(c, h, m) >= c.banscore
  {
    var f := FindTime(c, h.bancount);
    TotalBounds([m] + h.matches.list, Later(m.time - f - EXTRA_WINDOW, f - 1), max);
    hide Triggers, Total, Newer, FindTime;
    MisjudgedWhen(accepts, c, h, m, clock);
  }

  // --- never banned hosts stay below the limit over every run ---

  ghost predicate AllQuiet(c: Config, hosts: seq<Host>, restored: set<string>, max: int) {
    forall h :: h in hosts && h.text !in restored ==> Quiet(c, h, max) && (h.banned ==> h.bancount > 0)
  }

  /** Scores in 0..max, small enough for 16 bits on top of the limit. */
  ghost predicate SmallScores(c: Config, max: int) {
    MATCH_DEFSCORE <= max < 0x8000 && c.banscore + max <= 0x8000
  }

  ghost predicate SmallEvents(step: Step, max: int) {
    step.Command? || (step.Pass? && forall e :: e in step.events ==> 0 <= e.score <= max)
  }

  lemma HostOnMatchText(c: Config, h: Host, m: Match)
    ensures HostOnMatch(c, h, m).text == h.text
  {}

  lemma MatchStaysQuiet(c: Config, h: Host, m: Match, max: int)
    requires c.findtime > 0 && SmallScores(c, max) && 0 <= m.score <= max && m.time >= c.findtime
    requires h == NewHost(h.text) || (Quiet(c, h, max) && (h.banned ==> h.bancount > 0))
    ensures var g := HostOnMatch(c, h, m); Quiet(c, g, max) && (g.banned ==> g.bancount > 0) && g.text == h.text
  {
    if h.bancount == 0 && !h.banned { DecisionExact(c, h, m, max); }
    hide Triggers, WideScore;
  }

  lemma OnMatchQuiet(c: Config, j: Jail, text: string, m: Match, restored: set<string>, max: int)
    requires c.findtime > 0 && SmallScores(c, max) && AllQuiet(c, j.hosts, restored, max)
    requires 0 <= m.score <= max && m.time >= c.findtime
    ensures AllQuiet(c, OnMatch(c, j, text, m).hosts, restored, max)
  {
    hide Quiet, HostOnMatch, Triggers;
    var hosts := FindOrCreate(j.hosts, text);
    var i := Lookup(hosts, text);
    LookupFinds(j.hosts, text); LookupFinds(hosts, text);
    var hosts' := OnMatch(c, j, text, m).hosts;
    forall g | g in hosts' && g.text !in restored ensures Quiet(c, g, max) && (g.banned ==> g.bancount > 0) {
      var k :| 0 <= k < |hosts'| && hosts'[k] == g;
      if k == i {
        assert hosts[i] in hosts;
        assert hosts[i] == NewHost(text) || hosts[i] in j.hosts;
        HostOnMatchText(c, hosts[i], m);
        MatchStaysQuiet(c, hosts[i], m, max);
      } else {
        assert hosts[k] in hosts;
        assert hosts[k] in j.hosts;
      }
    }
  }

  lemma {:induction false} OnEventsQuiet(c: Config, j: Jail, events: seq<Event>, now: nat, restored: set<string>, max: int)
    requires c.findtime > 0 && SmallScores(c, max) && AllQuiet(c, j.hosts, restored, max) && now >= c.findtime
    requires forall e :: e in events ==> 0 <= e.score <= max
    ensures AllQuiet(c, OnEvents(c, j, events, now).hosts, restored, max)
  {
    if events != [] {
      var e := events[|events| - 1];
      OnEventsQuiet(c, j, events[..|events| - 1], now, restored, max);
      OnMatchQuiet(c, OnEvents(c, j, events[..|events| - 1], now), e.text, Matched(c, e, now), restored, max);
    }
  }

  lemma CommandQuiet(accepts: Acceptor, c: Config, j: Jail, op: int, ip: string, now: nat,
                     restored: set<string>, max: int)
    requires AllQuiet(c, j.hosts, restored, max)
    ensures AllQuiet(c, Operate(accepts, c, j, op, ip, now).0.hosts, restored, max)
  {
    var hosts' := Operate(accepts, c, j, op, ip, now).0.hosts;
    var i := Lookup(j.hosts, ip);
    LookupFinds(j.hosts, ip);
    forall g | g in hosts' && g.text !in restored ensures Quiet(c, g, max) && (g.banned ==> g.bancount > 0) {
      if g !in j.hosts && i < |j.hosts| && op < 0 {
        assert g == ReleasedHost(j.hosts[i]) && j.hosts[i] in j.hosts;
      }
    }
  }

  lemma StepQuiet(accepts: Acceptor, s: System, step: Step, restored: set<string>, max: int)
    requires Invariant(accepts, s) && Allowed(accepts, s, step) && SmallEvents(step, max)
    requires s.clock >= s.cfg.findtime && SmallScores(s.cfg, max) && AllQuiet(s.cfg, s.jail.hosts, restored, max)
    ensures AllQuiet(s.cfg, Next(accepts, s, step).jail.hosts, restored, max)
  {
    var c, j := s.cfg, s.jail;
    if step.Pass? {
      var es := if c.hasSource then step.events else [];
      OnEventsQuiet(c, j, es, step.now, restored, max);
      SweepMembers(c, OnEvents(c, j, es, step.now).hosts, step.now);
    } else {
      CommandQuiet(accepts, c, j, step.op, step.ip, step.now, restored, max);
    }
  }

  /** Over every run of passes and commands with fixed parameters, a host that was not restored
      from the state file and was never banned holds less than the score limit. */
  lemma {:induction false} RunQuiet(accepts: Acceptor, s: System, steps: seq<Step>, restored: set<string>, max: int)
    requires Invariant(accepts, s) && s.running && Legal(accepts, s, steps)
    requires forall step :: step in steps ==> SmallEvents(step, max)
    requires s.clock >= s.cfg.findtime && SmallScores(s.cfg, max) && AllQuiet(s.cfg, s.jail.hosts, restored, max)
    ensures var s' := Run(accepts, s, steps);
            && Invariant(accepts, s') && s'.running && s'.cfg == s.cfg && s'.clock >= s.clock
            && AllQuiet(s.cfg, s'.jail.hosts, restored, max)
  {
    if steps != [] {
      var init, step := steps[..|steps| - 1], steps[|steps| - 1];
      RunQuiet(accepts, s, init, restored, max);
      assert step in steps;
      StepQuiet(accepts, Run(accepts, s, init), step, restored, max);
      StepKeepsInvariant(accepts, Run(accepts, s, init), step);
    }
  }

  // --- from the start on ---

  /** Right after a start only restored hosts are listed. */
  lemma StartQuiet(accepts: Acceptor, s: System, now: nat, cfg: Config, max: int)
    ensures var hosts := Next(accepts, s, StartUp(now, cfg)).jail.hosts;
            AllQuiet(cfg, hosts, set h | h in hosts :: h.text, max)
  {}

  /** Over every run of passes and commands after a start, a host that the state file did not restore
      and that was never banned holds less than the score limit. */
  lemma QuietSinceStart(accepts: Acceptor, s: System, now: nat, cfg: Config, steps: seq<Step>, max: int)
    requires Invariant(accepts, s) && Allowed(accepts, s, StartUp(now, cfg)) && now >= cfg.findtime
    requires Legal(accepts, Next(accepts, s, StartUp(now, cfg)), steps) && SmallScores(cfg, max)
    requires forall step :: step in steps ==> SmallEvents(step, max)
    ensures var s1 := Next(accepts, s, StartUp(now, cfg));
            var restored := set h | h in s1.jail.hosts :: h.text;
            forall h :: h in Run(accepts, s1, steps).jail.hosts && h.text !in restored && h.bancount == 0
              ==> !h.banned && Total(h.matches.list) < cfg.banscore
  {
    var s1 := Next(accepts, s, StartUp(now, cfg));
    var restored := set h | h in s1.jail.hosts :: h.text;
    StartQuiet(accepts, s, now, cfg, max);
    StepKeepsInvariant(accepts, s, StartUp(now, cfg));
    assert s1.running && s1.cfg == cfg && s1.clock == now;
    hide Next, Run, Legal, Invariant, Allowed;
    RunQuiet(accepts, s1, steps, restored, max);
  }
}
