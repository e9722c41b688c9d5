/** What each step of a jail changes, field by field and in numbers: one line of the source, the
    events of a pass in their order, the sweep, the save, and the operator's commands. */
module JailSteps {
  import opened Hosts
  import opened Matches
  import opened StateFile
  import opened Jail
  import opened JailInvariant

  // --- one line of the source ---

  /** A line that the filter does not match leaves no trace. */
  lemma Unmatched(c: Config, j: Jail, e: Event, now: nat)
    requires c.hasFilter && e.ftag == 0
    ensures OnEvent(c, j, e, now) == j
  {}

  predicate Counts(c: Config, e: Event) {
    !c.hasFilter || e.ftag != 0
  }

  /** The match of a line: the filter's tag and score, or tag 0 and score 10 where there is no filter. */
  function MatchOf(c: Config, e: Event, now: nat): Match {
    Match(now, e.stag, if c.hasFilter then e.ftag else 0, if c.hasFilter then e.score else 10)
  }

  /** What a line records. The host's time is that of the pass, the match goes in front of its history,
      and of a host that is not banned nothing older than the depth plus ten minutes stays. A ban starts
      now, empties the history and counts one more. */
  lemma Recorded(c: Config, j: Jail, e: Event, now: nat)
    requires Counts(c, e)
    ensures var h, g := HostOf(j.hosts, e.text), HostOf(OnEvent(c, j, e, now).hosts, e.text);
            var history := [MatchOf(c, e, now)] + h.matches.list;
            && g.lastseen == now
            && (h.banned ==>
                 && g.banned && g.bannedAt == h.bannedAt && g.releaseAt == h.releaseAt
                 && g.bancount == h.bancount && g.matches.list == history)
            && (!h.banned && !g.banned ==>
                 && g.bancount == h.bancount
                 && g.matches.list == Newer(history, now - FindTime(c, h.bancount) - 600))
            && (!h.banned && g.banned ==>
                 && g.bannedAt == now && g.releaseAt == now + BanTime(c, h.bancount)
                 && g.bancount == h.bancount + 1 && g.matches == Log([], 0, 0))
  {
    hide BanTime, FindTime, Newer, Triggers;
    MatchExact(c, j, e.text, MatchOf(c, e, now));
  }

  /** What a line leaves in the books: one more match, and for a new ban one more ban, the address in
      the backend and a save that is due if there is a state file. */
  lemma Books(c: Config, j: Jail, e: Event, now: nat)
    requires Counts(c, e)
    ensures var j' := OnEvent(c, j, e, now);
            var bans := !HostOf(j.hosts, e.text).banned && HostOf(j'.hosts, e.text).banned;
            && j'.stats == Stats(j.stats.hosts, j.stats.bans + (if bans then 1 else 0), j.stats.matches + 1)
            && j'.backend == (if bans then j.backend + {e.text} else j.backend)
            && (j'.needSave <==> j.needSave || (bans && c.hasState))
            && j'.file == j.file
  {
    hide HostOnMatch, Triggers;
    var m := MatchOf(c, e, now);
    var hosts, h := FindOrCreate(j.hosts, e.text), HostOf(j.hosts, e.text);
    LookupFinds(hosts, e.text);
    assert hosts[Lookup(hosts, e.text)] == h;
    FoundAndUpdated(c, j, e.text, m);
    BansExactly(c, h, m);
  }

  lemma BansExactly(c: Config, h: Host, m: Match)
    ensures HostOnMatch(c, h, m).banned <==> h.banned || Triggers(c, h, m)
    ensures h.banned ==> !Triggers(c, h, m)
  {
    hide BanTime, FindTime, Score, Newer, Int16;
  }

  /** A known host keeps its place; a new one goes in front of the others. */
  lemma Placed(c: Config, j: Jail, e: Event, now: nat)
    requires Counts(c, e)
    ensures var hosts, i := OnEvent(c, j, e, now).hosts, Lookup(j.hosts, e.text);
            if i < |j.hosts| then |hosts| == |j.hosts| && forall k | 0 <= k < |hosts| && k != i :: hosts[k] == j.hosts[k]
            else hosts != [] && hosts[0].text == e.text && hosts[1..] == j.hosts
  {
    hide HostOnMatch, Triggers;
    LookupFinds(j.hosts, e.text);
    TextKept(c, NewHost(e.text), MatchOf(c, e, now));
  }

  // --- the events of a pass ---

  /** The events of a pass are taken in one after the other, in the order of the source. */
  lemma {:induction false} EventsInOrder(c: Config, j: Jail, a: seq<Event>, b: seq<Event>, now: nat)
    ensures OnEvents(c, j, a + b, now) == OnEvents(c, OnEvents(c, j, a, now), b, now)
  {
    hide OnEvent;
    if b == [] {
      assert a + b == a;
    } else {
      assert (a + b)[..|a + b| - 1] == a + b[..|b| - 1];
      EventsInOrder(c, j, a, b[..|b| - 1], now);
    }
  }

  lemma NoEvent(c: Config, j: Jail, now: nat)
    ensures OnEvents(c, j, [], now) == j
  {}

  lemma OneEvent(c: Config, j: Jail, e: Event, now: nat)
    ensures OnEvents(c, j, [e], now) == OnEvent(c, j, e, now)
  {
    assert [e][..0] == [];
    hide OnEvent;
    NoEvent(c, j, now);
  }

  /** The first event of a pass takes effect before the others. */
  lemma FirstEventFirst(c: Config, j: Jail, e: Event, rest: seq<Event>, now: nat)
    ensures OnEvents(c, j, [e] + rest, now) == OnEvents(c, OnEvent(c, j, e, now), rest, now)
  {
    hide OnEvent, OnEvents;
    EventsInOrder(c, j, [e], rest, now);
    OneEvent(c, j, e, now);
  }

  // --- the sweep and the save ---

  /** A banned host of the text whose release time has passed. */
  ghost predicate Over(hosts: seq<Host>, t: string, now: nat) {
    exists h :: h in hosts && h.text == t && h.banned && h.releaseAt < now
  }

  /** What the sweep leaves in the books. */
  lemma SweepBooks(c: Config, j: Jail, now: nat)
    ensures var j' := Sweep(c, j, now);
            && j'.stats == Stats(|j'.hosts|, j.stats.bans, j.stats.matches)
            && j'.needSave == j.needSave && j'.file == j.file
            && forall t :: t in j'.backend <==> t in j.backend && !Over(j.hosts, t, now)
  {
    hide SweepHosts;
  }

  /** A host stays in the list of a pass as it was, or with its ban taken off once the release time has
      passed; its last sight and the ban count stay on record. */
  lemma Stays(c: Config, hosts: seq<Host>, now: nat, g: Host)
    requires g in SweepHosts(c, hosts, now)
    ensures exists h :: h in hosts && g == if h.banned && h.releaseAt < now
                                            then h.(banned := false, bannedAt := 0, releaseAt := 0) else h
    ensures now <= g.lastseen + c.expiretime || now <= g.releaseAt + c.expiretime
  {
    SweepExact(c, hosts, now, g);
    var h :| h in hosts && g == SweptHost(h, now) && now <= Later(g.lastseen, g.releaseAt) + c.expiretime;
  }

  /** A ban that is over and a host not seen for the expiry time: the same pass drops the host. */
  lemma DroppedAtOnce(c: Config, hosts: seq<Host>, now: nat, h: Host)
    requires UniqueTexts(hosts) && h in hosts && c.expiretime > 0
    requires (h.banned ==> h.releaseAt < now) && (!h.banned ==> h.releaseAt + c.expiretime < now)
    requires h.lastseen + c.expiretime < now
    ensures forall g :: g in SweepHosts(c, hosts, now) ==> g.text != h.text
  {
    forall g | g in SweepHosts(c, hosts, now) ensures g.text != h.text {
      SweepExact(c, hosts, now, g);
      var f :| f in hosts && g == SweptHost(f, now) && now <= Later(g.lastseen, g.releaseAt) + c.expiretime;
      if g.text == h.text { SameText(hosts, f, h); }
    }
  }

  /** A pass writes the file exactly if a save is due and the list is not empty, and then the file holds
      the banned hosts, last one first. */
  lemma SaveExact(accepts: Acceptor, c: Config, j: Jail)
    requires forall h :: h in j.hosts ==> ValidAddress(accepts, h.text)
    ensures var j' := Save(c, j);
            && j'.hosts == j.hosts && j'.backend == j.backend && j'.stats == j.stats
            && (if c.hasState && j.needSave
                then !j'.needSave && (if j.hosts == [] then j'.file == j.file
                                      else Load(accepts, j'.file) == BannedReversed(j.hosts))
                else j'.needSave == j.needSave && j'.file == j.file)
  {
    hide Load, Print;
    if j.hosts != [] { RoundTrip(accepts, j.hosts); }
  }

  /** What a pass is made of. */
  lemma PassInParts(c: Config, j: Jail, events: seq<Event>, now: nat)
    ensures c.hasSource ==> Process(c, j, events, now) == Save(c, Sweep(c, OnEvents(c, j, events, now), now))
    ensures !c.hasSource ==> Process(c, j, events, now) == Save(c, Sweep(c, j, now))
  {
    hide OnEvent, Sweep, Save;
  }

  // --- start and stop ---

  /** A start lists a host for each record of the file, in the order they load, with nothing on record but
      its times; it is banned if its release time has not come. The counters start again. */
  lemma StartExact(accepts: Acceptor, c: Config, backend: set<string>, file: string, now: nat)
    ensures var j, records := Start(accepts, c, backend, file, now), Load(accepts, file);
            && |j.hosts| == (if c.hasState then |records| else 0)
            && (forall i | 0 <= i < |j.hosts| :: j.hosts[i] == Host(records[i].text, now < records[i].releaseAt, 0, 0,
                  records[i].bannedAt, records[i].releaseAt, Log([], 0, 0)))
            && j.stats == Stats(|j.hosts|, 0, 0) && !j.needSave && j.file == file
            && (!c.hasBackend ==> j.backend == backend)
            && (c.hasBackend ==>
                 forall t :: t in j.backend <==> t in backend || exists h :: h in j.hosts && h.banned && h.text == t)
  {
    hide Load;
  }

  /** A stop frees every banned host of the list and no other address; the file stays as it is. */
  lemma StopExact(c: Config, j: Jail)
    ensures var j' := Stop(c, j);
            && j'.hosts == [] && j'.file == j.file
            && (!c.hasBackend ==> j'.backend == j.backend)
            && (c.hasBackend ==>
                 forall t :: t in j'.backend <==> t in j.backend && !exists h :: h in j.hosts && h.banned && h.text == t)
  {}

  // --- the operator's commands ---

  /** A ban of an address that is not listed: it goes in front of the list as a host seen now that is
      banned from now for the length of a first ban, the backend bans it, and a save is due. */
  lemma NewBan(accepts: Acceptor, c: Config, j: Jail, op: int, ip: string, now: nat)
    requires c.hasBackend && op > 0 && ValidAddress(accepts, ip) && Lookup(j.hosts, ip) == |j.hosts|
    ensures var (j', reply) := Operate(accepts, c, j, op, ip, now);
            && reply == Done && j'.hosts != [] && j'.hosts[1..] == j.hosts
            && j'.hosts[0] == Host(ip, true, 1, now, now, now + BanTime(c, 0), Log([], 0, 0))
            && j'.backend == j.backend + {ip}
            && j'.stats == Stats(j.stats.hosts + 1, j.stats.bans + 1, j.stats.matches)
            && (j'.needSave <==> j.needSave || c.hasState) && j'.file == j.file
  {
    hide BanTime, ValidAddress;
  }

  /** A ban of a listed host counts from when the host was last seen. No save becomes due. */
  lemma KnownBan(accepts: Acceptor, c: Config, j: Jail, op: int, ip: string, now: nat)
    requires c.hasBackend && op > 0 && Lookup(j.hosts, ip) < |j.hosts|
    ensures var i, (j', reply) := Lookup(j.hosts, ip), Operate(accepts, c, j, op, ip, now);
            && reply == Done && |j'.hosts| == |j.hosts|
            && (forall k | 0 <= k < |j.hosts| && k != i :: j'.hosts[k] == j.hosts[k])
            && j'.hosts[i] == Host(ip, true, j.hosts[i].bancount + 1, j.hosts[i].lastseen, j.hosts[i].lastseen,
                                   j.hosts[i].lastseen + BanTime(c, j.hosts[i].bancount), Log([], 0, 0))
            && j'.backend == j.backend + {ip}
            && j'.stats == Stats(j.stats.hosts, j.stats.bans + 1, j.stats.matches)
            && j'.needSave == j.needSave && j'.file == j.file
  {
    hide BanTime;
    LookupFinds(j.hosts, ip);
  }

  /** A release of a listed host takes the ban off and leaves the rest of it as it was. */
  lemma KnownRelease(accepts: Acceptor, c: Config, j: Jail, op: int, ip: string, now: nat)
    requires c.hasBackend && op < 0 && Lookup(j.hosts, ip) < |j.hosts|
    ensures var i, (j', reply) := Lookup(j.hosts, ip), Operate(accepts, c, j, op, ip, now);
            && reply == Done && |j'.hosts| == |j.hosts|
            && (forall k | 0 <= k < |j.hosts| && k != i :: j'.hosts[k] == j.hosts[k])
            && j'.hosts[i] == j.hosts[i].(banned := false, bannedAt := 0, releaseAt := 0)
            && j'.backend == j.backend - {ip}
            && j'.stats == j.stats && j'.needSave == j.needSave && j'.file == j.file
  {
    LookupFinds(j.hosts, ip);
  }

  /** A status changes nothing and shows the fields of the host, with or without a backend. */
  lemma StatusShown(accepts: Acceptor, c: Config, j: Jail, ip: string, now: nat)
    requires Lookup(j.hosts, ip) < |j.hosts|
    ensures var h, (j', reply) := j.hosts[Lookup(j.hosts, ip)], Operate(accepts, c, j, 0, ip, now);
            && j' == j
            && reply == HostStatus(Status(ip, h.lastseen, h.bancount, h.banned, h.bannedAt, h.releaseAt))
  {
    LookupFinds(j.hosts, ip);
  }

  /** When and how a command is refused: nothing changes. */
  lemma Refusals(accepts: Acceptor, c: Config, j: Jail, op: int, ip: string, now: nat)
    ensures var (j', reply) := Operate(accepts, c, j, op, ip, now);
            var known := exists h :: h in j.hosts && h.text == ip;
            && (reply == NoBackend <==> !c.hasBackend && op != 0)
            && (reply == NotFound <==> !known && op <= 0 && (c.hasBackend || op == 0))
            && (reply == BadAddress <==> !known && op > 0 && c.hasBackend && !ValidAddress(accepts, ip))
            && (reply == NoBackend || reply == NotFound || reply == BadAddress ==> j' == j)
  {
    hide ValidAddress, BannedHost, ReleasedHost;
    LookupFinds(j.hosts, ip);
    var i := Lookup(j.hosts, ip);
    if i < |j.hosts| { assert j.hosts[i] in j.hosts; }
  }
}
