/** One jail (jail.c) as a value: what every operation computes from the old state. */
module Jail {
  import opened Hosts
  import opened Matches
  import opened StateFile

  const MATCH_DEFSCORE := 10
  const EXTRA_WINDOW := 600

  datatype Config = Config(
    enabled: bool,
    hasState: bool,
    hasSource: bool,
    hasFilter: bool,
    hasBackend: bool,
    bantime: int,
    findtime: int,
    expiretime: int,
    banscore: int,
    bantimeExtend: real,
    findtimeExtend: real,
    expiretimeExtend: real)

  datatype Stats = Stats(hosts: int, bans: nat, matches: nat)

  /** The jail with the ban set of its backend and the contents of its state file. */
  datatype Jail = Jail(
    hosts: seq<Host>,
    backend: set<string>,
    needSave: bool,
    file: string,
    stats: Stats)

  /** One line of the source, as the filter reports it; ftag 0 means no match. */
  datatype Event = Event(text: string, stag: nat, ftag: nat, score: int)

  /** The int16 that keeps a wider value. */
  function Int16(n: int): int { (n + 0x8000) % 0x1_0000 - 0x8000 }

  /** C conversion of a floating value to an integer. */
  function Truncate(r: real): int {
    if r >= 0.0 then r.Floor else -((-r).Floor)
  }

  function BanTime(c: Config, bancount: nat): int {
    if c.bantimeExtend > 0.0
    then c.bantime + Truncate(bancount as real * (c.bantime as real * c.bantimeExtend))
    else c.bantime
  }

  function FindTime(c: Config, bancount: nat): int {
    Truncate(c.findtime as real + c.findtime as real * (c.findtimeExtend * bancount as real))
  }

  // --- what happens to one host ---

  function BannedHost(c: Config, h: Host): Host {
    h.(matches := EMPTY, banned := true, bannedAt := h.lastseen, bancount := h.bancount + 1,
       releaseAt := h.lastseen + BanTime(c, h.bancount))
  }

  function ReleasedHost(h: Host): Host {
    h.(banned := false, bannedAt := 0, releaseAt := 0)
  }

  function Matched(c: Config, e: Event, now: nat): Match {
    if c.hasFilter then Match(now, e.stag, e.ftag, e.score) else Match(now, e.stag, 0, MATCH_DEFSCORE)
  }

  function SeenHost(h: Host, m: Match): Host {
    h.(lastseen := m.time, matches := Prepend(h.matches, m))
  }

  /** The host after old matches are dropped from its history. */
  function TrimmedHost(c: Config, h: Host, now: nat): Host {
    h.(matches := Expire(h.matches, now - FindTime(c, h.bancount) - EXTRA_WINDOW))
  }

  function WideScore(c: Config, h: Host): int {
    Score(h.matches.list, FindTime(c, h.bancount))
  }

  /** Whether the match makes an unbanned host reach the score limit. */
  predicate Triggers(c: Config, h: Host, m: Match) {
    !h.banned && Int16(WideScore(c, TrimmedHost(c, SeenHost(h, m), m.time))) >= c.banscore
  }

  function HostOnMatch(c: Config, h: Host, m: Match): Host {
    var seen := SeenHost(h, m);
    if h.banned then seen
    else
      var trimmed := TrimmedHost(c, seen, m.time);
      if Triggers(c, h, m) then BannedHost(c, trimmed) else trimmed
  }

  function SweptHost(h: Host, now: nat): Host {
    if h.banned && now > h.releaseAt then ReleasedHost(h) else h
  }

  predicate Expired(c: Config, h: Host, now: nat) {
    now > (if h.lastseen >= h.releaseAt then h.lastseen else h.releaseAt) + c.expiretime
  }

  // --- what happens to the jail ---

  function FindOrCreate(hosts: seq<Host>, text: string): seq<Host> {
    if Lookup(hosts, text) < |hosts| then hosts else [NewHost(text)] + hosts
  }

  /** A match of the i-th host. */
  function MatchAt(c: Config, j: Jail, i: nat, m: Match): Jail
    requires i < |j.hosts|
  {
    var h := j.hosts[i];
    var bans := Triggers(c, h, m);
    Jail(j.hosts[i := HostOnMatch(c, h, m)],
         j.backend + (if bans then {h.text} else {}),
         j.needSave || (bans && c.hasState),
         j.file,
         j.stats.(matches := j.stats.matches + 1, bans := j.stats.bans + if bans then 1 else 0))
  }

  function OnMatch(c: Config, j: Jail, text: string, m: Match): Jail {
    var found := j.(hosts := FindOrCreate(j.hosts, text));
    var i := Lookup(found.hosts, text);
    if i >= |found.hosts| then j else MatchAt(c, found, i, m)
  }

  function OnEvent(c: Config, j: Jail, e: Event, now: nat): Jail {
    if c.hasFilter && e.ftag == 0 then j else OnMatch(c, j, e.text, Matched(c, e, now))
  }

  function OnEvents(c: Config, j: Jail, events: seq<Event>, now: nat): Jail {
    if events == [] then j
    else OnEvent(c, OnEvents(c, j, events[..|events| - 1], now), events[|events| - 1], now)
  }

  function SweepHosts(c: Config, hosts: seq<Host>, now: nat): seq<Host> {
    if hosts == [] then []
    else
      var h := SweptHost(hosts[|hosts| - 1], now);
      SweepHosts(c, hosts[..|hosts| - 1], now) + if Expired(c, h, now) then [] else [h]
  }

  /** The texts that the sweep tells the backend to release. */
  function Freed(hosts: seq<Host>, now: nat): set<string> {
    set h | h in hosts && h.banned && now > h.releaseAt :: h.text
  }

  function Sweep(c: Config, j: Jail, now: nat): Jail {
    var hosts := SweepHosts(c, j.hosts, now);
    j.(hosts := hosts, backend := j.backend - Freed(j.hosts, now), stats := j.stats.(hosts := |hosts|))
  }

  /** An empty list is not written, but still counts as saved. */
  function Save(c: Config, j: Jail): Jail {
    if c.hasState && j.needSave
    then j.(file := if j.hosts == [] then j.file else Print(j.hosts), needSave := false)
    else j
  }

  function Process(c: Config, j: Jail, events: seq<Event>, now: nat): Jail {
    Save(c, Sweep(c, OnEvents(c, j, if c.hasSource then events else [], now), now))
  }

  function LoadedHost(r: Record, now: nat): Host {
    NewHost(r.text).(banned := now < r.releaseAt, bannedAt := r.bannedAt, releaseAt := r.releaseAt)
  }

  function LoadedHosts(records: seq<Record>, now: nat): seq<Host> {
    seq(|records|, i requires 0 <= i < |records| => LoadedHost(records[i], now))
  }

  function BannedTexts(hosts: seq<Host>): set<string> {
    set h | h in hosts && h.banned :: h.text
  }

  function Start(accepts: Acceptor, c: Config, backend: set<string>, file: string, now: nat): Jail {
    var hosts := if c.hasState then LoadedHosts(Load(accepts, file), now) else [];
    Jail(hosts, if c.hasBackend then backend + BannedTexts(hosts) else backend, false, file, Stats(|hosts|, 0, 0))
  }

  function Stop(c: Config, j: Jail): Jail {
    Jail([], if c.hasBackend then j.backend - BannedTexts(j.hosts) else j.backend, false, j.file, Stats(0, 0, 0))
  }

  function BanAt(c: Config, j: Jail, i: nat): Jail
    requires i < |j.hosts|
  {
    j.(hosts := j.hosts[i := BannedHost(c, j.hosts[i])], backend := j.backend + {j.hosts[i].text},
       stats := j.stats.(bans := j.stats.bans + 1))
  }

  function ReleaseAt(j: Jail, i: nat): Jail
    requires i < |j.hosts|
  {
    j.(hosts := j.hosts[i := ReleasedHost(j.hosts[i])], backend := j.backend - {j.hosts[i].text})
  }

  /** A host that only the operator has named: seen now, with an empty history. */
  function OperatorHost(text: string, now: nat): Host {
    NewHost(text).(lastseen := now)
  }

  /** What the status of a host shows of it, besides its matches. */
  datatype Status = Status(text: string, lastseen: nat, bancount: nat, banned: bool, bannedAt: int, releaseAt: int)

  function StatusOf(h: Host): Status {
    Status(h.text, h.lastseen, h.bancount, h.banned, h.bannedAt, h.releaseAt)
  }

  datatype Reply = NoBackend | BadAddress | NotFound | HostStatus(status: Status) | Done | Failed

  function AddedByOperator(c: Config, j: Jail, ip: string, now: nat): Jail {
    j.(hosts := [OperatorHost(ip, now)] + j.hosts,
       stats := j.stats.(hosts := j.stats.hosts + 1),
       needSave := j.needSave || c.hasState)
  }

  function OperateAt(c: Config, j: Jail, op: int, i: nat): (Jail, Reply)
    requires i < |j.hosts|
  {
    if op == 0 then (j, HostStatus(StatusOf(j.hosts[i])))
    else if op > 0 then (BanAt(c, j, i), Done)
    else (ReleaseAt(j, i), Done)
  }

  /** The operator's ban (op > 0), status (op == 0) and release (op < 0) of an address. */
  function Operate(accepts: Acceptor, c: Config, j: Jail, op: int, ip: string, now: nat): (Jail, Reply) {
    var i := Lookup(j.hosts, ip);
    if !c.hasBackend && op != 0 then (j, NoBackend)
    else if i < |j.hosts| then OperateAt(c, j, op, i)
    else if op <= 0 then (j, NotFound)
    else if !ValidAddress(accepts, ip) then (j, BadAddress)
    else OperateAt(c, AddedByOperator(c, j, ip, now), op, 0)
  }
}
