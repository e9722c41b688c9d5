/** Start, pass, stop and operator commands of a running jail (jail.c), built on module JailDaemon.
    Every operation computes the value that module Jail gives for it. */
module JailControl {
  import opened Chain
  import opened Hosts
  import opened HostRecord
  import opened StateFile
  import opened Text
  import opened Jail
  import opened JailDaemon
  import J = Jail

  // --- one pass ---

  /** What f2b_statefile_save writes. */
  method Render(addrlist: Node?<HostRec>, ghost spine: seq<Node<HostRec>>) returns (content: string)
    requires Linked(addrlist, spine)
    ensures content == Print(Views(Items(spine)))
  {
    hide PrintLine, PrintHosts, Unsigned, Decimal;
    ghost var hosts := Views(Items(spine));
    content := HEADER;
    PrintNone();
    var node := addrlist;
    ghost var i := 0;
    while node != null
      invariant i <= |spine| && node == if i < |spine| then spine[i] else null
      invariant content == HEADER + PrintHosts(hosts[..i])
      decreases |spine| - i
    {
      PrintOneMore(hosts[..i], hosts[i]);
      assert hosts[..i + 1] == hosts[..i] + [hosts[i]] && hosts[i] == node.item.View();
      if node.item.banned {
        var line := PrintLineOf(node.item);
        content := content + line;
      }
      node := node.next;
      i := i + 1;
    }
    assert hosts[..i] == hosts;
  }

  method PrintLineOf(addr: HostRec) returns (line: string)
    ensures line == PrintLine(addr.View())
  {
    line := addr.text + "\t" + Decimal(Unsigned(addr.bannedAt)) + "\t" + Decimal(Unsigned(addr.releaseAt)) + "\n";
  }

  lemma PrintNone()
    ensures HEADER + PrintHosts([]) == HEADER
  {}

  /** f2b_statefile_save: an empty list is not written. */
  method SaveFile(sf: StateStore, addrlist: Node?<HostRec>, ghost spine: seq<Node<HostRec>>)
    requires Linked(addrlist, spine)
    modifies sf
    ensures sf.content == if Views(Items(spine)) == [] then old(sf.content) else Print(Views(Items(spine)))
    ensures addrlist != null ==> !sf.needSave
  {
    hide Print;
    if addrlist == null {
      return;
    }
    sf.content := Render(addrlist, spine);
    sf.needSave := false;
  }

  method Save(j: JailObj)
    requires j.Shape()
    modifies j.sfile
    ensures j.Shape() && j.View() == J.Save(j.cfg, old(j.View()))
  {
    hide Linked, Separate, Items, Print, Within;
    if j.cfg.hasState && j.sfile.needSave {
      SaveFile(j.sfile, j.ipaddrs, j.spine);
      j.sfile.needSave := false;
    }
    assert Views(j.Recs()) == old(Views(j.Recs()));
    hide Views;
  }

  /** f2b_jail_process */
  method Process(j: JailObj, events: seq<Event>, now: nat)
    requires j.Shape() && forall r :: r in j.Recs() ==> r.matches.Valid()
    modifies j, j.backend, j.sfile, j.repr
    ensures j.Shape() && forall r :: r in j.Recs() ==> r.matches.Valid()
    ensures j.cfg == old(j.cfg) && fresh(j.repr - old(j.repr))
    ensures j.View() == J.Process(j.cfg, old(j.View()), events, now)
  {
    hide Linked, Separate, Views, OnEvents, J.Sweep, J.Save, Items, Print;
    j.ReadSource(events, now);
    j.Sweep(now);
    hide JailObj.View, JailObj.Shape;
    Save(j);
  }

  // --- start ---

  /** A host as the state file gives it, before anything is known of the time. */
  function FiledHost(r: Record): Host {
    NewHost(r.text).(banned := true, bannedAt := r.bannedAt, releaseAt := r.releaseAt)
  }

  function FiledHosts(records: seq<Record>): seq<Host> {
    seq(|records|, i requires 0 <= i < |records| => FiledHost(records[i]))
  }

  method HostOfRecord(r: Record) returns (addr: HostRec)
    ensures fresh(addr) && fresh(addr.matches) && addr.View() == FiledHost(r)
    ensures addr.matches.Valid() && addr.matches.Nodes() == {}
  {
    addr := new HostRec(r.text, 0);
    addr.banned := true;
    addr.bannedAt := r.bannedAt;
    addr.releaseAt := r.releaseAt;
  }

  lemma NoHosts()
    ensures Linked<HostRec>(null, []) && Separate([]) && Within([], {}) && Items<HostRec>([]) == []
    ensures Views([]) == FiledHosts([]) == []
  {}

  lemma FiledFront(r: Record, records: seq<Record>)
    ensures FiledHosts([r] + records) == [FiledHost(r)] + FiledHosts(records)
  {}

  /** A host of a record, apart from the hosts already read. */
  method NextHost(r: Record, ghost recs: seq<HostRec>, ghost repr: set<object>)
    returns (addr: HostRec, ghost repr': set<object>)
    requires Separate(recs) && Within(recs, repr) && forall a :: a in recs ==> a.matches.Valid()
    ensures Separate([addr] + recs) && Within([addr] + recs, repr') && repr <= repr' && fresh(repr' - repr)
    ensures forall a :: a in [addr] + recs ==> a.matches.Valid()
    ensures Views([addr] + recs) == [FiledHost(r)] + old(Views(recs))
  {
    hide Linked, Separate, Views, Within, FiledHost;
    ghost var views := Views(recs);
    addr := HostOfRecord(r);
    assert forall a :: a in recs ==> a != addr && a.matches != addr.matches;
    SeparateFront(addr, recs);
    ViewsFront(addr, recs);
    assert Views(recs) == views;
    repr' := repr + {addr, addr.matches};
    WithinFront(addr, recs, repr, repr');
  }

  /** One record of the file: its host goes in front of the list. */
  method LoadOne(r: Record, addrlist: Node?<HostRec>, ghost spine: seq<Node<HostRec>>, ghost recs: seq<HostRec>,
                 ghost repr: set<object>)
    returns (node: Node<HostRec>, ghost recs': seq<HostRec>, ghost repr': set<object>)
    requires Linked(addrlist, spine) && recs == Items(spine) && Separate(recs) && Within(recs, repr)
    requires (forall n :: n in spine ==> n in repr) && forall a :: a in recs ==> a.matches.Valid()
    ensures Linked(node, [node] + spine) && recs' == Items([node] + spine) && Separate(recs') && Within(recs', repr')
    ensures (forall n :: n in [node] + spine ==> n in repr') && forall a :: a in recs' ==> a.matches.Valid()
    ensures Views(recs') == [FiledHost(r)] + old(Views(recs))
    ensures fresh(repr' - repr)
  {
    hide Linked, Separate, Views, Within, FiledHost, Items;
    var addr;
    addr, repr' := NextHost(r, recs, repr);
    recs' := [addr] + recs;
    node := new Node(addr);
    ItemsSingle(node);
    ItemsAppend([node], spine);
    WithinMore(recs', repr', repr' + {node});
    label made:
    Push(node, addrlist, spine);
    assert forall a :: a in recs' ==> unchanged@made(a) && unchanged@made(a.matches);
    repr' := repr' + {node};
  }

  /** f2b_statefile_load: every line that reads as a record puts a host in front. */
  method LoadFile(accepts: Acceptor, content: string)
    returns (addrlist: Node?<HostRec>, ghost spine: seq<Node<HostRec>>, ghost recs: seq<HostRec>,
             ghost repr: set<object>)
    ensures Linked(addrlist, spine) && recs == Items(spine) && Separate(recs) && Within(recs, repr) && fresh(repr)
    ensures (forall n :: n in spine ==> n in repr) && forall r :: r in recs ==> r.matches.Valid()
    ensures Views(recs) == FiledHosts(Load(accepts, content))
  {
    hide Linked, Separate, Views, Within, Items, ParseLine, LineLength, FiledHosts;
    addrlist, spine, recs, repr := null, [], [], {};
    ghost var done: seq<Record> := [];
    NoHosts();
    var rest := content;
    while rest != ""
      invariant Linked(addrlist, spine) && recs == Items(spine) && Separate(recs) && Within(recs, repr) && fresh(repr)
      invariant (forall n :: n in spine ==> n in repr) && forall r :: r in recs ==> r.matches.Valid()
      invariant Views(recs) == FiledHosts(done)
      invariant LoadOnto(accepts, rest, done) == Load(accepts, content)
      decreases |rest|
    {
      var n := LineLength(rest, LINE_MAX);
      var record := ParseLine(accepts, rest[..n]);
      rest := rest[n..];
      if record.Some? {
        var node;
        node, recs, repr := LoadOne(record.value, addrlist, spine, recs, repr);
        FiledFront(record.value, done);
        addrlist, spine, done := node, [node] + spine, [record.value] + done;
      }
    }
  }

  /** A host of the file once the time is known: its ban is over, or still in force. */
  function Settled(h: Host, now: nat): Host {
    h.(banned := h.banned && now < h.releaseAt)
  }

  /** The first loop of f2b_jail_start: lift the bans that are over, count the hosts. */
  method SettleBans(addrlist: Node?<HostRec>, ghost spine: seq<Node<HostRec>>, ghost recs: seq<HostRec>, now: nat)
    returns (hostc: nat)
    requires Linked(addrlist, spine) && recs == Items(spine) && Separate(recs)
    modifies set r | r in recs
    ensures hostc == |spine| && |Views(recs)| == |old(Views(recs))|
    ensures forall k :: 0 <= k < |recs| ==> Views(recs)[k] == Settled(old(Views(recs))[k], now)
  {
    hostc := 0;
    var node := addrlist;
    ghost var i := 0;
    while node != null
      invariant hostc == i <= |spine| && node == if i < |spine| then spine[i] else null
      invariant forall k :: 0 <= k < i ==> recs[k].View() == Settled(old(recs[k].View()), now)
      invariant forall k :: i <= k < |recs| ==> recs[k].View() == old(recs[k].View())
      decreases |spine| - i
    {
      hostc := hostc + 1;
      assert recs[i] == node.item && node.item in recs;
      assert forall k :: 0 <= k < |recs| && k != i ==> recs[k] != recs[i];
      if node.item.banned && now >= node.item.releaseAt {
        node.item.banned := false;
      }
      node := node.next;
      i := i + 1;
    }
  }

  lemma BannedTextsLast(hosts: seq<Host>, h: Host)
    ensures BannedTexts(hosts + [h]) == BannedTexts(hosts) + if h.banned then {h.text} else {}
  {
    var all := hosts + [h];
    forall t ensures t in BannedTexts(all) <==> t in BannedTexts(hosts) || (h.banned && t == h.text) {
      if t in BannedTexts(hosts) {
        var g :| g in hosts && g.banned && g.text == t;
        assert g in all;
      }
      assert h in all;
    }
  }

  lemma BannedTextsNone()
    ensures BannedTexts([]) == {}
  {}

  /** The second loop of f2b_jail_start: ban again what is still banned. */
  method RestoreBans(backend: Backend, addrlist: Node?<HostRec>, ghost spine: seq<Node<HostRec>>,
                     ghost recs: seq<HostRec>)
    requires Linked(addrlist, spine) && recs == Items(spine)
    modifies backend
    ensures backend.banned == old(backend.banned) + BannedTexts(Views(recs))
  {
    hide BannedTexts;
    ghost var hosts := Views(recs);
    BannedTextsNone();
    var node := addrlist;
    ghost var i := 0;
    while node != null
      invariant i <= |spine| && node == if i < |spine| then spine[i] else null
      invariant backend.banned == old(backend.banned) + BannedTexts(hosts[..i])
      decreases |spine| - i
    {
      BannedTextsLast(hosts[..i], hosts[i]);
      assert hosts[..i + 1] == hosts[..i] + [hosts[i]] && hosts[i] == node.item.View();
      if node.item.banned {
        var found := backend.Check(node.item.text);
        if !found {
          var _ := backend.Ban(node.item.text);
        }
      }
      node := node.next;
      i := i + 1;
    }
    assert hosts[..i] == hosts;
  }

  lemma SettledLoaded(records: seq<Record>, now: nat, hosts: seq<Host>)
    requires |hosts| == |records|
    requires forall k :: 0 <= k < |hosts| ==> hosts[k] == Settled(FiledHosts(records)[k], now)
    ensures hosts == LoadedHosts(records, now)
  {}

  lemma WithinMembers(recs: seq<HostRec>, repr: set<object>)
    requires Within(recs, repr)
    ensures forall r :: r in recs ==> r in repr
  {}

  /** The hosts a jail starts with. */
  method InitialHosts(c: Config, accepts: Acceptor, content: string, now: nat)
    returns (addrlist: Node?<HostRec>, hostc: nat, ghost spine: seq<Node<HostRec>>, ghost recs: seq<HostRec>,
             ghost repr: set<object>)
    ensures Linked(addrlist, spine) && recs == Items(spine) && Separate(recs) && Within(recs, repr) && fresh(repr)
    ensures (forall n :: n in spine ==> n in repr) && forall r :: r in recs ==> r.matches.Valid()
    ensures Views(recs) == if c.hasState then LoadedHosts(Load(accepts, content), now) else []
    ensures hostc == |Views(recs)|
  {
    hide Linked, Separate, Views, Within, Items, Load, Settled, LoadedHosts;
    NoHosts();
    if !c.hasState {
      addrlist, hostc, spine, recs, repr := null, 0, [], [], {};
      return;
    }
    addrlist, spine, recs, repr := LoadFile(accepts, content);
    ViewsLength(recs);
    ItemsEmpty<HostRec>();
    WithinMembers(recs, repr);
    assert forall r :: r in recs ==> r in repr && fresh(r);
    label loaded:
    hostc := SettleBans(addrlist, spine, recs, now);
    assert forall a :: a in recs ==> unchanged@loaded(a.matches);
    SettledLoaded(Load(accepts, content), now, Views(recs));
  }

  /** Give the jail its list. */
  method Adopt(j: JailObj, addrlist: Node?<HostRec>, hostc: nat, ghost spine: seq<Node<HostRec>>,
               ghost recs: seq<HostRec>, ghost repr: set<object>)
    requires Linked(addrlist, spine) && recs == Items(spine) && Separate(recs) && Within(recs, repr)
    requires forall n :: n in spine ==> n in repr
    modifies j`ipaddrs, j`hosts, j`spine, j`repr
    ensures j.Shape() && j.Recs() == recs && j.spine == spine && j.repr == repr && j.ipaddrs == addrlist
    ensures j.View() == old(j.View()).(hosts := old(Views(recs)), stats := old(j.View()).stats.(hosts := hostc))
  {
    hide Linked, Separate, Views, Within, Items;
    ghost var views := Views(recs);
    j.ipaddrs, j.hosts, j.spine, j.repr := addrlist, hostc, spine, repr;
    assert Views(recs) == views;
  }

  /** f2b_jail_start, of a jail that has just been created. */
  method Start(j: JailObj, accepts: Acceptor, now: nat)
    requires !j.sfile.needSave && j.bans == 0 && j.matched == 0
    modifies j, j.backend
    ensures j.Shape() && forall r :: r in j.Recs() ==> r.matches.Valid()
    ensures j.cfg == old(j.cfg) && fresh(j.repr)
    ensures j.View() == J.Start(accepts, j.cfg, old(j.backend.banned), j.sfile.content, now)
  {
    hide Linked, Separate, Views, Within, Items, Load, LoadedHosts, BannedTexts;
    var addrlist, hostc;
    ghost var spine, recs, repr;
    addrlist, hostc, spine, recs, repr := InitialHosts(j.cfg, accepts, j.sfile.content, now);
    Adopt(j, addrlist, hostc, spine, recs, repr);
    if j.cfg.hasBackend {
      RestoreBans(j.backend, addrlist, spine, recs);
    }
  }

  // --- stop ---

  /** The loop of f2b_jail_stop: release what is banned. */
  method ReleaseAll(j: JailObj, addrlist: Node?<HostRec>, ghost spine: seq<Node<HostRec>>, ghost recs: seq<HostRec>)
    requires Linked(addrlist, spine) && recs == Items(spine) && Separate(recs)
    modifies j.backend, set r | r in recs
    ensures j.backend.banned == old(j.backend.banned) - BannedTexts(old(Views(recs)))
  {
    hide BannedTexts, ReleasedHost;
    ghost var hosts := Views(recs);
    BannedTextsNone();
    var node := addrlist;
    ghost var i := 0;
    while node != null
      invariant i <= |spine| && node == if i < |spine| then spine[i] else null
      invariant forall k :: i <= k < |recs| ==> recs[k].View() == old(recs[k].View())
      invariant j.backend.banned == old(j.backend.banned) - BannedTexts(hosts[..i])
      decreases |spine| - i
    {
      BannedTextsLast(hosts[..i], hosts[i]);
      assert hosts[..i + 1] == hosts[..i] + [hosts[i]] && hosts[i] == node.item.View();
      assert recs[i] == node.item && node.item in recs;
      assert forall k :: 0 <= k < |recs| && k != i ==> recs[k] != recs[i];
      if node.item.banned {
        var _ := j.Unban(node.item);
      }
      node := node.next;
      i := i + 1;
    }
    assert hosts[..i] == hosts;
  }

  /** f2b_jail_stop: the state file stays as the last save left it. */
  method Stop(j: JailObj)
    requires j.Shape()
    modifies j`ipaddrs, j`spine, j.backend, j.repr
    ensures j.ipaddrs == null && j.spine == [] && j.sfile.content == old(j.sfile.content)
    ensures j.backend.banned == J.Stop(j.cfg, old(j.View())).backend
  {
    hide Linked, Separate, Views, Items, BannedTexts;
    if j.cfg.hasBackend {
      ReleaseAll(j, j.ipaddrs, j.spine, j.Recs());
    }
    j.ipaddrs, j.spine := null, [];
  }

  // --- operator commands ---

  /** Banning one host of a list leaves the other hosts as they were. */
  method BanAmong(j: JailObj, ghost recs: seq<HostRec>, ghost i: nat, addr: HostRec) returns (ok: bool)
    requires Separate(recs) && (forall r :: r in recs ==> r.matches.Valid()) && i < |recs| && recs[i] == addr
    modifies addr, addr.matches, j.backend, j`bans
    ensures Separate(recs) && ok && forall r :: r in recs ==> r.matches.Valid()
    ensures Views(recs) == old(Views(recs))[i := BannedHost(j.cfg, old(addr.View()))]
    ensures forall r :: r in recs ==> r.matches.Nodes() <= old(r.matches.Nodes())
    ensures j.backend.banned == old(j.backend.banned) + {addr.text} && j.bans == old(j.bans) + 1
  {
    hide BannedHost, Linked;
    ghost var views := Views(recs);
    ok := j.Ban(addr);
    forall k | 0 <= k < |recs| && k != i
      ensures recs[k].matches.Valid() && recs[k].View() == views[k] && Apart(recs[k].matches, addr.matches)
      ensures recs[k] != addr && recs[k].matches.Nodes() == old(recs[k].matches.Nodes())
    {
      assert old(recs[k].matches.Valid()) && recs[i] == addr;
      assert forall n :: n in recs[k].matches.spine ==> n in recs[k].matches.Nodes();
    }
    assert Views(recs) == views[i := addr.View()];
  }

  method BanAt(j: JailObj, ghost i: nat, addr: HostRec) returns (ok: bool)
    requires j.Shape() && forall r :: r in j.Recs() ==> r.matches.Valid()
    requires i < |j.Recs()| && j.Recs()[i] == addr
    modifies addr, addr.matches, j.backend, j`bans
    ensures j.Shape() && ok && forall r :: r in j.Recs() ==> r.matches.Valid()
    ensures j.View() == J.BanAt(j.cfg, old(j.View()), i)
  {
    hide BannedHost, Linked, Items, Separate;
    ghost var recs := j.Recs();
    assert addr in recs && Views(recs)[i] == addr.View();
    ok := BanAmong(j, recs, i, addr);
    hide Views;
  }

  method ReleaseAt(j: JailObj, ghost i: nat, addr: HostRec) returns (ok: bool)
    requires j.Shape() && forall r :: r in j.Recs() ==> r.matches.Valid()
    requires i < |j.Recs()| && j.Recs()[i] == addr
    modifies addr, j.backend
    ensures j.Shape() && ok && forall r :: r in j.Recs() ==> r.matches.Valid()
    ensures j.View() == J.ReleaseAt(old(j.View()), i)
  {
    hide ReleasedHost, Linked, Items;
    ghost var recs := j.Recs();
    ghost var views := Views(recs);
    assert views[i] == addr.View();
    assert forall k :: 0 <= k < |recs| && k != i ==> recs[k] != addr;
    hide Separate;
    ok := j.Unban(addr);
    assert Views(recs) == views[i := addr.View()];
    hide Views;
  }

  /** A host that only the operator has named goes on the list. */
  method AddByOperator(j: JailObj, ip: string, now: nat) returns (addr: HostRec)
    requires j.Shape() && forall r :: r in j.Recs() ==> r.matches.Valid()
    modifies j, j.sfile
    ensures j.Shape() && forall r :: r in j.Recs() ==> r.matches.Valid()
    ensures j.cfg == old(j.cfg) && fresh(j.repr - old(j.repr)) && |j.Recs()| > 0 && j.Recs()[0] == addr
    ensures j.View() == AddedByOperator(j.cfg, old(j.View()), ip, now)
  {
    hide Linked, Separate, Items, Views, NewHost, Within;
    addr := j.AddHost(ip, now);
    ghost var recs: seq<HostRec> := j.Recs();
    ghost var views := Views(recs);
    j.hosts := j.hosts + 1;
    if j.cfg.hasState {
      j.sfile.needSave := true;
    }
    assert j.Recs() == recs && Views(recs) == views;
  }

  /** A ban, status or release of the i-th host. */
  method OperateAt(j: JailObj, op: int, ghost i: nat, addr: HostRec) returns (reply: Reply)
    requires j.Shape() && forall r :: r in j.Recs() ==> r.matches.Valid()
    requires i < |j.Recs()| == |j.View().hosts| && j.Recs()[i] == addr
    modifies addr, addr.matches, j.backend, j`bans
    ensures j.Shape() && forall r :: r in j.Recs() ==> r.matches.Valid()
    ensures (j.View(), reply) == J.OperateAt(j.cfg, old(j.View()), op, i)
  {
    hide Linked, Separate, Items, J.BanAt, J.ReleaseAt;
    if op == 0 {
      reply := HostStatus(Status(addr.text, addr.lastseen, addr.bancount, addr.banned, addr.bannedAt, addr.releaseAt));
      return;
    }
    hide Views;
    var ok: bool;
    if op > 0 {
      ok := BanAt(j, i, addr);
    } else {
      ok := ReleaseAt(j, i, addr);
    }
    reply := if ok then Done else Failed;
  }

  lemma Indexed(j: JailObj)
    ensures |j.Recs()| == |j.View().hosts| == |j.spine|
    ensures forall i :: 0 <= i < |j.spine| ==> j.Recs()[i] == j.spine[i].item
  {}

  lemma WithinMember(recs: seq<HostRec>, repr: set<object>, r: HostRec)
    requires Within(recs, repr) && r in recs
    ensures r in repr && r.matches in repr
  {}

  /** f2b_jail_cmd_ip_xxx */
  method Operate(j: JailObj, accepts: Acceptor, op: int, ip: string, now: nat) returns (reply: Reply)
    requires j.Shape() && forall r :: r in j.Recs() ==> r.matches.Valid()
    modifies j, j.backend, j.sfile, j.repr
    ensures j.Shape() && forall r :: r in j.Recs() ==> r.matches.Valid()
    ensures j.cfg == old(j.cfg) && fresh(j.repr - old(j.repr))
    ensures (j.View(), reply) == J.Operate(accepts, j.cfg, old(j.View()), op, ip, now)
  {
    hide Linked, Separate, Items, Views, Within, ValidAddress, Lookup, J.OperateAt, AddedByOperator;
    if !j.cfg.hasBackend && op != 0 {
      return NoBackend;
    }
    var node: Node?<HostRec>;
    ghost var i: nat;
    Indexed(j);
    node, i := j.LookupNode(ip);
    var addr: HostRec;
    if node == null {
      if op <= 0 {
        return NotFound;
      }
      if !ValidAddress(accepts, ip) {
        return BadAddress;
      }
      addr := AddByOperator(j, ip, now);
      Indexed(j);
      i := 0;
    } else {
      addr := node.item;
    }
    WithinMember(j.Recs(), j.repr, addr);
    reply := OperateAt(j, op, i, addr);
  }
}
