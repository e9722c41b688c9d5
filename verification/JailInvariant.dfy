/** What every operation of a jail keeps: the list and the backend agree, histories stay sound. */
module JailInvariant {
  import opened Hosts
  import opened Matches
  import opened StateFile
  import opened Text
  import opened Jail

  ghost predicate HostSound(accepts: Acceptor, h: Host, clock: nat) {
    ValidAddress(accepts, h.text) && Sound(h.matches, clock) && h.lastseen <= clock
  }

  ghost predicate HostsSound(accepts: Acceptor, hosts: seq<Host>, clock: nat) {
    forall h :: h in hosts ==> HostSound(accepts, h, clock)
  }

  /** Exactly the hosts flagged as banned are banned in the backend, each text listed once. */
  ghost predicate Agreed(j: Jail) {
    UniqueTexts(j.hosts) && j.backend == BannedTexts(j.hosts)
  }

  ghost predicate UniqueRecords(records: seq<Record>) {
    forall i, k :: 0 <= i < k < |records| ==> records[i].text != records[k].text
  }

  ghost predicate Consistent(accepts: Acceptor, j: Jail, clock: nat) {
    && Agreed(j)
    && HostsSound(accepts, j.hosts, clock)
    && UniqueRecords(Load(accepts, j.file))
  }

  // --- one host of the list changes, joins or leaves ---

  lemma ReplaceHost(hosts: seq<Host>, i: nat, h: Host)
    requires UniqueTexts(hosts) && i < |hosts| && h.text == hosts[i].text
    ensures UniqueTexts(hosts[i := h])
    ensures BannedTexts(hosts[i := h])
         == if h.banned then BannedTexts(hosts) + {h.text} else BannedTexts(hosts) - {h.text}
  {
    var hosts' := hosts[i := h];
    assert forall k :: 0 <= k < |hosts| ==> hosts'[k].text == hosts[k].text;
    forall t ensures t in BannedTexts(hosts') <==> (if t == h.text then h.banned else t in BannedTexts(hosts)) {
      if t in BannedTexts(hosts') {
        var g :| g in hosts' && g.banned && g.text == t;
        var k :| 0 <= k < |hosts'| && hosts'[k] == g;
        if k != i { assert hosts[k] in hosts; }
      }
      if t == h.text && h.banned { assert hosts'[i] in hosts'; }
      if t != h.text && t in BannedTexts(hosts) {
        var g :| g in hosts && g.banned && g.text == t;
        var k :| 0 <= k < |hosts| && hosts[k] == g;
        assert hosts'[k] in hosts';
      }
    }
  }

  lemma AddHost(hosts: seq<Host>, h: Host)
    requires UniqueTexts(hosts) && Lookup(hosts, h.text) == |hosts|
    ensures UniqueTexts([h] + hosts)
    ensures BannedTexts([h] + hosts) == BannedTexts(hosts) + if h.banned then {h.text} else {}
  {
    LookupFinds(hosts, h.text);
    var hosts' := [h] + hosts;
    assert forall k :: 0 < k < |hosts'| ==> hosts'[k] == hosts[k - 1];
  }

  // --- matches ---

  lemma HostOnMatchSound(accepts: Acceptor, c: Config, h: Host, m: Match, clock: nat)
    requires HostSound(accepts, h, clock) && m.time >= clock
    ensures HostSound(accepts, HostOnMatch(c, h, m), m.time)
    ensures HostOnMatch(c, h, m).text == h.text
    ensures HostOnMatch(c, h, m).banned == (h.banned || Triggers(c, h, m))
  {
    PrependKeepsSound(h.matches, m, clock);
    ExpireKeepsSound(SeenHost(h, m).matches, m.time - FindTime(c, h.bancount) - EXTRA_WINDOW, m.time);
  }

  lemma LaterSound(accepts: Acceptor, hosts: seq<Host>, clock: nat, now: nat)
    requires HostsSound(accepts, hosts, clock) && clock <= now
    ensures HostsSound(accepts, hosts, now)
  {}

  lemma FoundConsistent(accepts: Acceptor, j: Jail, text: string, clock: nat)
    requires Consistent(accepts, j, clock) && ValidAddress(accepts, text)
    ensures Consistent(accepts, j.(hosts := FindOrCreate(j.hosts, text)), clock)
    ensures var hosts := FindOrCreate(j.hosts, text); Lookup(hosts, text) < |hosts|
  {
    LookupFinds(j.hosts, text);
    if Lookup(j.hosts, text) == |j.hosts| {
      AddHost(j.hosts, NewHost(text));
      assert HostSound(accepts, NewHost(text), clock);
    }
  }

  lemma MatchAtConsistent(accepts: Acceptor, c: Config, j: Jail, i: nat, m: Match, clock: nat)
    requires Consistent(accepts, j, clock) && m.time >= clock && i < |j.hosts|
    ensures Consistent(accepts, MatchAt(c, j, i, m), m.time)
  {
    var h := j.hosts[i];
    assert h in j.hosts;
    LaterSound(accepts, j.hosts, clock, m.time);
    HostOnMatchSound(accepts, c, h, m, clock);
    hide HostOnMatch, Triggers, HostSound;
    ReplaceHost(j.hosts, i, HostOnMatch(c, h, m));
    if h.banned { assert h.text in BannedTexts(j.hosts); } else { StaysUnbanned(j.hosts, i); }
    ReplacedSound(accepts, j.hosts, i, HostOnMatch(c, h, m), m.time);
  }

  lemma OnMatchConsistent(accepts: Acceptor, c: Config, j: Jail, text: string, m: Match, clock: nat)
    requires Consistent(accepts, j, clock) && m.time >= clock && ValidAddress(accepts, text)
    ensures Consistent(accepts, OnMatch(c, j, text, m), m.time)
  {
    FoundConsistent(accepts, j, text, clock);
    var found := j.(hosts := FindOrCreate(j.hosts, text));
    MatchAtConsistent(accepts, c, found, Lookup(found.hosts, text), m, clock);
    hide Consistent, MatchAt, FindOrCreate, Lookup;
  }

  lemma StaysUnbanned(hosts: seq<Host>, i: nat)
    requires UniqueTexts(hosts) && i < |hosts| && !hosts[i].banned
    ensures hosts[i].text !in BannedTexts(hosts)
  {
    forall g | g in hosts && g.text == hosts[i].text ensures !g.banned {
      SameText(hosts, g, hosts[i]);
    }
  }

  lemma ReplacedSound(accepts: Acceptor, hosts: seq<Host>, i: nat, h: Host, clock: nat)
    requires i < |hosts| && HostsSound(accepts, hosts, clock) && HostSound(accepts, h, clock)
    ensures HostsSound(accepts, hosts[i := h], clock)
  {
    forall g | g in hosts[i := h] ensures HostSound(accepts, g, clock) {
      if g != h { assert g in hosts; }
    }
  }

  ghost predicate ValidEvents(accepts: Acceptor, c: Config, events: seq<Event>) {
    forall e :: e in events && (c.hasFilter ==> e.ftag != 0) ==> ValidAddress(accepts, e.text)
  }

  /** The host of a text as a match finds it. */
  function HostOf(hosts: seq<Host>, text: string): (h: Host)
    ensures h.text == text
  {
    LookupFinds(hosts, text);
    var i := Lookup(hosts, text);
    if i < |hosts| then hosts[i] else NewHost(text)
  }

  /** What one match does: the host was seen now; a banned host only collects the match; another one is
      banned from now, with an empty history, exactly if the match triggers, and otherwise keeps what
      is recent. */
  lemma MatchExact(c: Config, j: Jail, text: string, m: Match)
    ensures var h, g := HostOf(j.hosts, text), HostOf(OnMatch(c, j, text, m).hosts, text);
            var history := [m] + h.matches.list;
            && g.lastseen == m.time && (g.banned <==> h.banned || Triggers(c, h, m))
            && (if h.banned then g == h.(lastseen := m.time, matches := g.matches) && g.matches.list == history
                else if g.banned then
                  && g.matches == EMPTY && g.bancount == h.bancount + 1
                  && g.bannedAt == m.time && g.releaseAt == m.time + BanTime(c, h.bancount)
                else
                  && g.bancount == h.bancount
                  && g.matches.list == Newer(history, m.time - FindTime(c, h.bancount) - EXTRA_WINDOW))
  {
    hide BanTime, FindTime, Int16, Score, Newer;
    FoundAndUpdated(c, j, text, m);
  }

  /** A match changes no host but its own, and adds at most that one. */
  lemma MatchElsewhere(c: Config, j: Jail, text: string, m: Match, other: string)
    requires other != text
    ensures HostOf(OnMatch(c, j, text, m).hosts, other) == HostOf(j.hosts, other)
  {
    hide HostOnMatch, Triggers;
    var hosts := FindOrCreate(j.hosts, text);
    LookupFinds(hosts, text);
    var i := Lookup(hosts, text);
    assert HostOnMatch(c, hosts[i], m).text == hosts[i].text by { TextKept(c, hosts[i], m); }
    ReplacedElsewhere(hosts, i, HostOnMatch(c, hosts[i], m), other);
    assert ([NewHost(text)] + j.hosts)[1..] == j.hosts;
  }

  lemma TextKept(c: Config, h: Host, m: Match)
    ensures HostOnMatch(c, h, m).text == h.text
  {
    hide Triggers, BanTime, FindTime;
  }

  lemma {:induction false} ReplacedElsewhere(hosts: seq<Host>, i: nat, g: Host, other: string)
    requires i < |hosts| && g.text == hosts[i].text != other
    ensures HostOf(hosts[i := g], other) == HostOf(hosts, other)
  {
    if i == 0 {
      assert hosts[0 := g][1..] == hosts[1..];
    } else {
      ReplacedElsewhere(hosts[1..], i - 1, g, other);
      assert hosts[i := g][1..] == hosts[1..][i - 1 := g];
    }
  }

  lemma FoundAndUpdated(c: Config, j: Jail, text: string, m: Match)
    ensures HostOf(OnMatch(c, j, text, m).hosts, text) == HostOnMatch(c, HostOf(j.hosts, text), m)
  {
    hide HostOnMatch, Triggers;
    var hosts := FindOrCreate(j.hosts, text);
    LookupFinds(hosts, text);
    var i := Lookup(hosts, text);
    var h := HostOf(j.hosts, text);
    assert i < |hosts| && hosts[i] == h;
    TextKept(c, h, m);
    ReplacedHere(hosts, i, HostOnMatch(c, h, m), text);
  }

  lemma {:induction false} ReplacedHere(hosts: seq<Host>, i: nat, g: Host, text: string)
    requires i < |hosts| && i == Lookup(hosts, text) && g.text == text
    ensures HostOf(hosts[i := g], text) == g
  {
    if i > 0 {
      ReplacedHere(hosts[1..], i - 1, g, text);
      assert hosts[i := g][1..] == hosts[1..][i - 1 := g];
    }
  }

  lemma {:induction false} OnEventsConsistent(accepts: Acceptor, c: Config, j: Jail, events: seq<Event>, clock: nat, now: nat)
    requires Consistent(accepts, j, clock) && clock <= now && ValidEvents(accepts, c, events)
    ensures Consistent(accepts, OnEvents(c, j, events, now), now)
    ensures OnEvents(c, j, events, now).file == j.file
  {
    if events == [] {
      LaterSound(accepts, j.hosts, clock, now);
    } else {
      var e := events[|events| - 1];
      OnEventsConsistent(accepts, c, j, events[..|events| - 1], clock, now);
      if !(c.hasFilter && e.ftag == 0) {
        assert e in events;
        OnMatchConsistent(accepts, c, OnEvents(c, j, events[..|events| - 1], now), e.text, Matched(c, e, now), now);
      }
    }
  }

  // --- the sweep ---

  /** The sweep keeps exactly the hosts that have not expired after this pass's releases. */
  lemma {:induction false} SweepMembers(c: Config, hosts: seq<Host>, now: nat)
    ensures forall g :: g in SweepHosts(c, hosts, now)
                   <==> exists h :: h in hosts && g == SweptHost(h, now) && !Expired(c, g, now)
    ensures |SweepHosts(c, hosts, now)| <= |hosts|
  {
    if hosts != [] {
      var init, h := hosts[..|hosts| - 1], hosts[|hosts| - 1];
      SweepMembers(c, init, now);
      assert hosts == init + [h];
    }
  }

  /** The sweep works host by host, so what stays keeps its order. */
  lemma {:induction false} SweepConcat(c: Config, a: seq<Host>, b: seq<Host>, now: nat)
    ensures SweepHosts(c, a + b, now) == SweepHosts(c, a, now) + SweepHosts(c, b, now)
  {
    if b == [] {
      assert a + b == a;
    } else {
      assert (a + b)[..|a + b| - 1] == a + b[..|b| - 1];
      SweepConcat(c, a, b[..|b| - 1], now);
    }
  }

  function Later(a: int, b: int): int { if a >= b then a else b }

  /** Exactly the hosts stay that were seen, or are released, within the expiry time. */
  lemma SweepExact(c: Config, hosts: seq<Host>, now: nat, g: Host)
    ensures g in SweepHosts(c, hosts, now)
       <==> exists h :: h in hosts && g == SweptHost(h, now) && now <= Later(g.lastseen, g.releaseAt) + c.expiretime
  {
    SweepMembers(c, hosts, now);
  }

  /** No host that is still flagged as banned expires. */
  lemma BannedNeverExpires(c: Config, h: Host, now: nat)
    requires c.expiretime > 0
    ensures SweptHost(h, now).banned ==> !Expired(c, SweptHost(h, now), now)
  {}

  lemma {:induction false} SweepUnique(c: Config, hosts: seq<Host>, now: nat)
    requires UniqueTexts(hosts)
    ensures UniqueTexts(SweepHosts(c, hosts, now))
  {
    if hosts != [] {
      var init, h := hosts[..|hosts| - 1], hosts[|hosts| - 1];
      SweepUnique(c, init, now);
      SweepMembers(c, init, now);
      var kept := SweepHosts(c, init, now);
      forall i | 0 <= i < |kept| ensures kept[i].text != h.text {
        assert kept[i] in kept;
        var g :| g in init && kept[i] == SweptHost(g, now);
        var k :| 0 <= k < |init| && init[k] == g;
        assert hosts[k] == g;
      }
    }
  }

  lemma SweepAgreed(c: Config, j: Jail, now: nat)
    requires Agreed(j) && c.expiretime > 0
    ensures Agreed(Sweep(c, j, now))
  {
    var hosts, kept := j.hosts, SweepHosts(c, j.hosts, now);
    SweepUnique(c, hosts, now);
    SweepMembers(c, hosts, now);
    forall t ensures t in BannedTexts(kept) <==> t in BannedTexts(hosts) && t !in Freed(hosts, now) {
      if t in BannedTexts(kept) {
        var g :| g in kept && g.banned && g.text == t;
        var h :| h in hosts && g == SweptHost(h, now);
        assert h.banned && h.text == t;
        forall f | f in hosts && f.text == t ensures f == h {
          SameText(hosts, f, h);
        }
      }
      if t in BannedTexts(hosts) && t !in Freed(hosts, now) {
        var h :| h in hosts && h.banned && h.text == t;
        assert SweptHost(h, now) == h;
        BannedNeverExpires(c, h, now);
        assert h in kept;
      }
    }
  }

  lemma SameText(hosts: seq<Host>, g: Host, h: Host)
    requires UniqueTexts(hosts) && g in hosts && h in hosts && g.text == h.text
    ensures g == h
  {
    var i :| 0 <= i < |hosts| && hosts[i] == g;
    var k :| 0 <= k < |hosts| && hosts[k] == h;
    assert i == k;
  }

  lemma SweepConsistent(accepts: Acceptor, c: Config, j: Jail, now: nat)
    requires Consistent(accepts, j, now) && c.expiretime > 0
    ensures Consistent(accepts, Sweep(c, j, now), now)
    ensures Sweep(c, j, now).stats.hosts == |Sweep(c, j, now).hosts|
  {
    SweepAgreed(c, j, now);
    SweepMembers(c, j.hosts, now);
  }

  // --- saving and loading ---

  lemma {:induction false} SavedTexts(hosts: seq<Host>)
    ensures forall r :: r in BannedReversed(hosts) <==> exists h :: h in hosts && h.banned && r == RecordOf(h)
    ensures UniqueTexts(hosts) ==> UniqueRecords(BannedReversed(hosts))
  {
    if hosts != [] {
      var init, h := hosts[..|hosts| - 1], hosts[|hosts| - 1];
      SavedTexts(init);
      assert hosts == init + [h];
      if UniqueTexts(hosts) {
        var rest := BannedReversed(init);
        forall i | 0 <= i < |rest| ensures rest[i].text != h.text {
          assert rest[i] in rest;
          var g :| g in init && g.banned && rest[i] == RecordOf(g);
          var k :| 0 <= k < |init| && init[k] == g;
          assert hosts[k] == g;
        }
      }
    }
  }

  lemma SaveConsistent(accepts: Acceptor, c: Config, j: Jail, clock: nat)
    requires Consistent(accepts, j, clock)
    ensures Consistent(accepts, Save(c, j), clock)
    ensures c.hasState ==> !Save(c, j).needSave
  {
    if c.hasState && j.needSave && j.hosts != [] {
      assert forall h :: h in j.hosts ==> HostSound(accepts, h, clock);
      RoundTrip(accepts, j.hosts);
      SavedTexts(j.hosts);
    }
  }

  lemma ProcessConsistent(accepts: Acceptor, c: Config, j: Jail, events: seq<Event>, clock: nat, now: nat)
    requires Consistent(accepts, j, clock) && clock <= now && c.expiretime > 0 && ValidEvents(accepts, c, events)
    ensures Consistent(accepts, Process(c, j, events, now), now)
    ensures Process(c, j, events, now).stats.hosts == |Process(c, j, events, now).hosts|
  {
    var es := if c.hasSource then events else [];
    OnEventsConsistent(accepts, c, j, es, clock, now);
    SweepConsistent(accepts, c, OnEvents(c, j, es, now), now);
    SaveConsistent(accepts, c, Sweep(c, OnEvents(c, j, es, now), now), now);
  }

  lemma {:induction false} LoadedValid(accepts: Acceptor, file: string, list: seq<Record>)
    requires forall r :: r in list ==> ValidAddress(accepts, r.text)
    ensures forall r :: r in LoadOnto(accepts, file, list) ==> ValidAddress(accepts, r.text)
    decreases |file|
  {
    if file != "" {
      var n := LineLength(file, LINE_MAX);
      ParsedValid(accepts, file[..n]);
      LoadedValid(accepts, file[n..], Add(list, ParseLine(accepts, file[..n])));
    }
  }

  lemma ParsedValid(accepts: Acceptor, line: string)
    ensures ParseLine(accepts, line).Some? ==> ValidAddress(accepts, ParseLine(accepts, line).value.text)
  {}

  lemma StartConsistent(accepts: Acceptor, c: Config, file: string, now: nat)
    requires UniqueRecords(Load(accepts, file)) && c.hasBackend
    ensures Consistent(accepts, Start(accepts, c, {}, file, now), now)
    ensures Start(accepts, c, {}, file, now).stats.hosts == |Start(accepts, c, {}, file, now).hosts|
  {
    LoadedValid(accepts, file, []);
  }

  lemma OperateKnown(accepts: Acceptor, c: Config, j: Jail, op: int, i: nat, now: nat)
    requires Agreed(j) && HostsSound(accepts, j.hosts, now) && i < |j.hosts|
    ensures Agreed(BanAt(c, j, i)) && HostsSound(accepts, BanAt(c, j, i).hosts, now)
    ensures Agreed(ReleaseAt(j, i)) && HostsSound(accepts, ReleaseAt(j, i).hosts, now)
  {
    var h := j.hosts[i];
    assert h in j.hosts;
    assert HostSound(accepts, BannedHost(c, h), now) && HostSound(accepts, ReleasedHost(h), now);
    ReplaceHost(j.hosts, i, BannedHost(c, h));
    ReplacedSound(accepts, j.hosts, i, BannedHost(c, h), now);
    ReplaceHost(j.hosts, i, ReleasedHost(h));
    ReplacedSound(accepts, j.hosts, i, ReleasedHost(h), now);
  }

  lemma OperateConsistent(accepts: Acceptor, c: Config, j: Jail, op: int, ip: string, clock: nat, now: nat)
    requires Consistent(accepts, j, clock) && clock <= now && j.stats.hosts == |j.hosts|
    ensures Consistent(accepts, Operate(accepts, c, j, op, ip, now).0, now)
    ensures var j' := Operate(accepts, c, j, op, ip, now).0; j'.stats.hosts == |j'.hosts|
  {
    LookupFinds(j.hosts, ip);
    LaterSound(accepts, j.hosts, clock, now);
    var i := Lookup(j.hosts, ip);
    if i < |j.hosts| {
      OperateKnown(accepts, c, j, op, i, now);
    } else if ValidAddress(accepts, ip) {
      var host := OperatorHost(ip, now);
      AddHost(j.hosts, host);
      OperateKnown(accepts, c, j.(hosts := [host] + j.hosts), op, 0, now);
    }
    hide HostsSound, UniqueRecords, BannedHost, ReleasedHost, UniqueTexts, BannedTexts;
  }
}
