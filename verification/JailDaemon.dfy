/** The jail of jail.c as the daemon runs it: a linked host list, counters, a backend and a state
    file, all updated in place. Every operation computes the value that module Jail gives for it. */
module JailDaemon {
  import opened Chain
  import opened Hosts
  import opened Matches
  import opened HostRecord
  import opened Jail
  import JailModules
  import J = Jail

  /** A backend that does what it is told; some backends cannot answer a check. */
  class Backend {
    var banned: set<string>
    const canCheck: bool

    method Check(ip: string) returns (found: bool)
      ensures found == (canCheck && ip in banned)
    {
      found := canCheck && ip in banned;
    }

    method Ban(ip: string) returns (ok: bool)
      modifies this
      ensures banned == old(banned) + {ip} && ok
    {
      banned, ok := banned + {ip}, true;
    }

    method Unban(ip: string) returns (ok: bool)
      modifies this
      ensures banned == old(banned) - {ip} && ok
    {
      banned, ok := banned - {ip}, true;
    }
  }

  class StateStore {
    var content: string
    var needSave: bool
  }

  class JailObj {
    var cfg: Config
    var modules: JailModules.Modules
    var ipaddrs: Node?<HostRec>
    ghost var spine: seq<Node<HostRec>>
    ghost var repr: set<object>
    const backend: Backend
    const sfile: StateStore
    var hosts: int
    var bans: nat
    var matched: nat

    constructor (cfg: Config, backend: Backend, sfile: StateStore)
      ensures this.cfg == cfg && this.backend == backend && this.sfile == sfile
      ensures Shape() && spine == [] && repr == {} && hosts == 0 && bans == 0 && matched == 0
    {
      this.cfg, this.backend, this.sfile, modules := cfg, backend, sfile, JailModules.NONE;
      ipaddrs, spine, repr := null, [], {};
      hosts, bans, matched := 0, 0, 0;
    }

    ghost function Recs(): seq<HostRec>
      reads this
    {
      Items(spine)
    }

    ghost predicate Shape()
      reads this, spine, set r | r in Recs() :: r.matches
    {
      && Linked(ipaddrs, spine) && Separate(Recs())
      && Within(Recs(), repr)
      && (forall n :: n in spine ==> n in repr)
    }

    ghost function View(): J.Jail
      reads this, backend, sfile, Recs(), set r | r in Recs() :: r.matches
    {
      J.Jail(Views(Recs()), backend.banned, sfile.needSave, sfile.content, Stats(hosts, bans, matched))
    }

    /** f2b_jail_ban */
    method Ban(addr: HostRec) returns (ok: bool)
      requires addr.matches.Valid()
      modifies addr, addr.matches, backend, this`bans
      ensures ok && addr.View() == BannedHost(cfg, old(addr.View()))
      ensures addr.matches.Valid() && addr.matches.spine == []
      ensures backend.banned == old(backend.banned) + {addr.text} && bans == old(bans) + 1
    {
      addr.matches.Flush();
      addr.banned := true;
      addr.bannedAt := addr.lastseen;
      var bantime := BanTime(cfg, addr.bancount);
      addr.bancount := addr.bancount + 1;
      addr.releaseAt := addr.bannedAt + bantime;
      bans := bans + 1;
      var already := backend.Check(addr.text);
      if already {
        return true;
      }
      ok := backend.Ban(addr.text);
    }

    /** f2b_jail_unban */
    method Unban(addr: HostRec) returns (ok: bool)
      modifies addr, backend
      ensures ok && addr.View() == ReleasedHost(old(addr.View()))
      ensures backend.banned == old(backend.banned) - {addr.text}
    {
      addr.banned := false;
      addr.bannedAt := 0;
      addr.releaseAt := 0;
      ok := backend.Unban(addr.text);
    }

    /** A match of one host: put it on record, and ban the host if its score reaches the limit. */
    method HostMatch(addr: HostRec, m: Match)
      requires addr.matches.Valid()
      modifies addr, addr.matches, addr.matches.Nodes(), backend, sfile`needSave, this`bans, this`matched
      ensures addr.View() == HostOnMatch(cfg, old(addr.View()), m)
      ensures addr.matches.Valid() && fresh(addr.matches.Nodes() - old(addr.matches.Nodes()))
      ensures var triggers := Triggers(cfg, old(addr.View()), m);
              && backend.banned == old(backend.banned) + (if triggers then {addr.text} else {})
              && sfile.needSave == (old(sfile.needSave) || (triggers && cfg.hasState))
              && bans == old(bans) + (if triggers then 1 else 0)
      ensures matched == old(matched) + 1
    {
      addr.Seen(m);
      matched := matched + 1;
      if addr.banned {
        return;
      }
      addr.Trim(cfg, m.time);
      var score := addr.matches.Score(FindTime(cfg, addr.bancount));
      score := Int16(score);
      if score < cfg.banscore {
        return;
      }
      var _ := Ban(addr);
      if cfg.hasState {
        sfile.needSave := true;
      }
    }

    /** f2b_addrlist_lookup */
    method LookupNode(text: string) returns (node: Node?<HostRec>, ghost i: nat)
      requires Shape()
      ensures i == Lookup(Views(Recs()), text)
      ensures node == if i < |spine| then spine[i] else null
    {
      node := ipaddrs;
      i := 0;
      while node != null
        invariant i <= |spine| && node == if i < |spine| then spine[i] else null
        invariant Lookup(Views(Recs()), text) == i + Lookup(Views(Recs())[i..], text)
        decreases |spine| - i
      {
        if node.item.text == text {
          return;
        }
        node := node.next;
        i := i + 1;
      }
    }

    /** Unlinking a node leaves the hosts of the others as they were. */
    method UnlinkHost(prev: Node?<HostRec>, current: Node<HostRec>,
                      ghost before: seq<Node<HostRec>>, ghost tail: seq<Node<HostRec>>, ghost recs: seq<HostRec>)
      requires Linked(ipaddrs, before + [current] + tail) && Separate(recs)
      requires prev == if before == [] then null else before[|before| - 1]
      modifies this`ipaddrs, prev
      ensures Linked(ipaddrs, before + tail) && Separate(recs) && Views(recs) == old(Views(recs))
    {
      hide Linked, Separate, Views;
      var next;
      ipaddrs, next := Unlink(ipaddrs, prev, current, before, tail);
      assert forall r :: r in recs ==> unchanged(r) && unchanged(r.matches);
    }

    /** f2b_addrlist_remove: unlink the first host of the text. */
    method RemoveHost(text: string)
      requires Linked(ipaddrs, spine) && Separate(Recs())
      modifies this`ipaddrs, this`spine, set n | n in spine
      ensures Linked(ipaddrs, spine) && Separate(Recs())
      ensures Views(Recs()) == Removed(old(Views(Recs())), text)
    {
      hide Linked, Separate, Lookup, Removed, Views, Items;
      ghost var before: seq<Node<HostRec>> := [];
      ghost var rest := spine;
      First(ipaddrs, spine);
      var node, prev: Node?<HostRec> := ipaddrs, null;
      while node != null
        invariant Linked(ipaddrs, spine) && Separate(Recs()) && Views(Recs()) == old(Views(Recs()))
        invariant spine == old(spine) == before + rest && node == if rest == [] then null else rest[0]
        invariant prev == if before == [] then null else before[|before| - 1]
        invariant forall n :: n in before ==> n.item.text != text
        decreases |rest|
      {
        var current: Node<HostRec> := node;
        ghost var tail := rest[1..];
        assert rest == [current] + tail;
        Regroup(before, current, tail);
        assert spine == before + [current] + tail;
        if current.item.text == text {
          Unlinked(before, current, tail, text);
          assert prev != null ==> prev in spine;
          UnlinkHost(prev, current, before, tail, Items(before + tail));
          spine := before + tail;
          return;
        }
        Successor(ipaddrs, before, current, tail);
        before, rest := before + [current], tail;
        prev, node := current, current.next;
      }
      NotListed(spine, text);
    }

    /** f2b_addrlist_append: a new host goes in front. */
    method AddHost(text: string, lastseen: nat) returns (addr: HostRec)
      requires Shape() && forall r :: r in Recs() ==> r.matches.Valid()
      modifies this`ipaddrs, this`spine, this`repr
      ensures Shape() && forall r :: r in Recs() ==> r.matches.Valid()
      ensures Recs() == [addr] + old(Recs()) && fresh(repr - old(repr))
      ensures View() == old(View()).(hosts := [NewHost(text).(lastseen := lastseen)] + old(View().hosts))
    {
      hide NewHost, Linked, Separate, Views, Within, Items;
      ghost var recs: seq<HostRec> := Recs();
      ghost var repr': set<object>;
      addr, repr' := NewFront(text, lastseen, recs, repr);
      ghost var all: seq<HostRec> := [addr] + recs;
      ghost var views := Views(all);
      InsertFront(addr);
      assert Recs() == all && Views(all) == views;
      WithinMore(all, repr', repr);
    }

    /** Link a host record in front of the list. */
    method InsertFront(addr: HostRec)
      requires Linked(ipaddrs, spine) && forall n :: n in spine ==> n in repr
      modifies this`ipaddrs, this`spine, this`repr
      ensures Linked(ipaddrs, spine) && (forall n :: n in spine ==> n in repr)
      ensures Recs() == [addr] + old(Recs()) && fresh(repr - old(repr) - {addr, addr.matches})
      ensures repr >= old(repr) + {addr, addr.matches}
    {
      hide Linked;
      var node := new Node(addr);
      Push(node, ipaddrs, spine);
      ipaddrs := node;
      spine := [node] + spine;
      repr := repr + {node, addr, addr.matches};
    }

    /** A match of one host of a list leaves the other hosts as they were. */
    method MatchAmong(ghost recs: seq<HostRec>, ghost i: nat, addr: HostRec, m: Match)
      requires Separate(recs) && (forall r :: r in recs ==> r.matches.Valid()) && i < |recs| && recs[i] == addr
      modifies addr, addr.matches, addr.matches.Nodes(), backend, sfile`needSave, this`bans, this`matched
      ensures Separate(recs) && forall r :: r in recs ==> r.matches.Valid()
      ensures Views(recs) == old(Views(recs))[i := HostOnMatch(cfg, old(addr.View()), m)]
      ensures forall r :: r in recs && r != addr ==> r.matches.Nodes() == old(r.matches.Nodes())
      ensures fresh(addr.matches.Nodes() - old(addr.matches.Nodes()))
      ensures var triggers := Triggers(cfg, old(addr.View()), m);
              && backend.banned == old(backend.banned) + (if triggers then {addr.text} else {})
              && sfile.needSave == (old(sfile.needSave) || (triggers && cfg.hasState))
              && bans == old(bans) + (if triggers then 1 else 0)
      ensures matched == old(matched) + 1
    {
      hide Triggers, HostOnMatch, Linked;
      ghost var views := Views(recs);
      HostMatch(addr, m);
      forall k | 0 <= k < |recs| && k != i
        ensures recs[k].matches.Valid() && recs[k].View() == views[k] && Apart(recs[k].matches, addr.matches)
        ensures recs[k] != addr && recs[k].matches.Nodes() == old(recs[k].matches.Nodes())
      {
        assert old(recs[k].matches.Valid()) && recs[i] == addr;
        assert forall n :: n in recs[k].matches.spine ==> n in recs[k].matches.Nodes();
      }
      assert Views(recs) == views[i := addr.View()];
    }

    /** A match of the i-th host. */
    method MatchAt(ghost i: nat, addr: HostRec, m: Match)
      requires Shape() && forall r :: r in Recs() ==> r.matches.Valid()
      requires i < |Recs()| && Recs()[i] == addr
      modifies addr, addr.matches, addr.matches.Nodes(), backend, sfile`needSave, this`bans, this`matched, this`repr
      ensures Shape() && forall r :: r in Recs() ==> r.matches.Valid()
      ensures View() == J.MatchAt(cfg, old(View()), i, m)
      ensures fresh(repr - old(repr))
    {
      hide Triggers, HostOnMatch, Linked, Items, Separate;
      ghost var recs := Recs();
      assert addr in recs && Views(recs)[i] == addr.View();
      MatchAmong(recs, i, addr, m);
      repr := repr + addr.matches.Nodes();
      hide Views;
    }

    /** Find the host with the text, or add it. */
    method FindOrAdd(text: string) returns (addr: HostRec, ghost i: nat)
      requires Shape() && forall r :: r in Recs() ==> r.matches.Valid()
      modifies this`ipaddrs, this`spine, this`repr
      ensures Shape() && forall r :: r in Recs() ==> r.matches.Valid()
      ensures View() == old(View()).(hosts := FindOrCreate(old(View().hosts), text))
      ensures i == Lookup(View().hosts, text) < |Recs()| == |View().hosts| && Recs()[i] == addr
      ensures fresh(repr - old(repr))
    {
      hide Linked, Separate, Lookup, FindOrCreate, NewHost;
      ghost var hosts := View().hosts;
      FindOrCreateCases(hosts, text);
      var node;
      node, i := LookupNode(text);
      if node == null {
        addr := AddHost(text, 0);
        i := 0;
      } else {
        addr := node.item;
      }
    }

    method OnMatch(text: string, m: Match)
      requires Shape() && forall r :: r in Recs() ==> r.matches.Valid()
      modifies this, backend, sfile, repr
      ensures Shape() && forall r :: r in Recs() ==> r.matches.Valid()
      ensures cfg == old(cfg) && View() == J.OnMatch(cfg, old(View()), text, m)
      ensures fresh(repr - old(repr))
    {
      hide Linked, Separate, FindOrCreate, Lookup, J.MatchAt, Items, Views;
      var addr, i := FindOrAdd(text);
      assert addr in Recs();
      MatchAt(i, addr, m);
    }

    /** The source loop of f2b_jail_process. */
    method ReadSource(events: seq<Event>, now: nat)
      requires Shape() && forall r :: r in Recs() ==> r.matches.Valid()
      modifies this, backend, sfile, repr
      ensures Shape() && forall r :: r in Recs() ==> r.matches.Valid()
      ensures cfg == old(cfg) && fresh(repr - old(repr))
      ensures View() == OnEvents(cfg, old(View()), if cfg.hasSource then events else [], now)
    {
      hide Shape, J.OnMatch, View;
      var i := 0;
      while cfg.hasSource && i < |events|
        invariant i <= |events| && cfg == old(cfg) && (!cfg.hasSource ==> i == 0)
        invariant Shape() && forall r :: r in Recs() ==> r.matches.Valid()
        invariant fresh(repr - old(repr))
        invariant View() == OnEvents(cfg, old(View()), events[..i], now)
      {
        var e := events[i];
        assert events[..i + 1][..i] == events[..i];
        i := i + 1;
        if cfg.hasFilter && e.ftag == 0 {
          continue;
        }
        OnMatch(e.text, Matched(cfg, e, now));
      }
      assert events[..|events|] == events;
    }

    /** Release a host whose ban is over, and tell whether it has expired. */
    method SweepOne(addr: HostRec, now: nat) returns (remove: bool)
      modifies addr, backend
      ensures addr.View() == SweptHost(old(addr.View()), now)
      ensures remove == Expired(cfg, addr.View(), now)
      ensures backend.banned == old(backend.banned) - Freed([old(addr.View())], now)
    {
      if addr.banned && now > addr.releaseAt {
        var _ := Unban(addr);
      }
      var expiretime: int := if addr.lastseen >= addr.releaseAt then addr.lastseen else addr.releaseAt;
      expiretime := expiretime + cfg.expiretime;
      remove := now > expiretime;
    }

    /** Sweeping one host of a list leaves the hosts before and after it as they were. */
    method SweepAmong(addr: HostRec, now: nat, ghost a: seq<HostRec>, ghost b: seq<HostRec>) returns (remove: bool)
      requires Separate(a + [addr] + b)
      modifies addr, backend
      ensures Separate(a + [addr] + b) && Separate(a + b)
      ensures Views(a) == old(Views(a)) && Views(b) == old(Views(b))
      ensures addr.View() == SweptHost(old(addr.View()), now)
      ensures remove == Expired(cfg, addr.View(), now)
      ensures backend.banned == old(backend.banned) - Freed([old(addr.View())], now)
    {
      hide SweptHost, Expired, Freed;
      SeparateWithout(a, addr, b);
      hide Separate;
      remove := SweepOne(addr, now);
    }

    /** One host of the walk: between the nodes already kept, holding the hosts a, and the nodes
        still to come, holding the hosts b. */
    method SweepNext(prev: Node?<HostRec>, current: Node<HostRec>, now: nat,
                     ghost kept: seq<Node<HostRec>>, ghost rest: seq<Node<HostRec>>,
                     ghost a: seq<HostRec>, ghost b: seq<HostRec>)
      returns (removed: bool, next: Node?<HostRec>)
      requires Linked(ipaddrs, kept + [current] + rest) && Separate(a + [current.item] + b)
      requires prev == if kept == [] then null else kept[|kept| - 1]
      modifies this`ipaddrs, backend, current.item, prev
      ensures Linked(ipaddrs, if removed then kept + rest else kept + [current] + rest)
      ensures Separate(if removed then a + b else a + [current.item] + b)
      ensures next == if rest == [] then null else rest[0]
      ensures Views(a) == old(Views(a)) && Views(b) == old(Views(b))
      ensures current.item.View() == SweptHost(old(current.item.View()), now)
      ensures removed == Expired(cfg, current.item.View(), now)
      ensures backend.banned == old(backend.banned) - Freed([old(current.item.View())], now)
    {
      hide Linked, SweptHost, Expired, Freed, Separate, Views;
      Successor(ipaddrs, kept, current, rest);
      removed := SweepAmong(current.item, now, a, b);
      if removed {
        label swept:
        ipaddrs, next := Unlink(ipaddrs, prev, current, kept, rest);
        assert forall r :: r in a || r in b ==> unchanged@swept(r) && unchanged@swept(r.matches);
      } else {
        next := current.next;
      }
    }

    /** The same step with the kept part of the list and the counter brought up to date. */
    method SweepStep(prev: Node?<HostRec>, current: Node<HostRec>, hostc: nat, now: nat,
                     ghost kept: seq<Node<HostRec>>, ghost rest: seq<Node<HostRec>>,
                     ghost a: seq<HostRec>, ghost b: seq<HostRec>)
      returns (next: Node?<HostRec>, prev': Node?<HostRec>, hostc': nat,
               ghost kept': seq<Node<HostRec>>, ghost a': seq<HostRec>)
      requires Linked(ipaddrs, kept + [current] + rest) && Separate(a + [current.item] + b)
      requires prev == (if kept == [] then null else kept[|kept| - 1]) && hostc == |kept|
      requires a == Items(kept) && b == Items(rest)
      modifies this`ipaddrs, backend, current.item, prev
      ensures Linked(ipaddrs, kept' + rest) && Separate(a' + b) && a' == Items(kept')
      ensures next == if rest == [] then null else rest[0]
      ensures prev' == (if kept' == [] then null else kept'[|kept'| - 1]) && hostc' == |kept'|
      ensures (forall n :: n in kept' ==> n in kept || n == current) && (forall r :: r in a' ==> r in a || r == current.item)
      ensures var g := SweptHost(old(current.item.View()), now);
              Views(a') == old(Views(a)) + if Expired(cfg, g, now) then [] else [g]
      ensures Views(b) == old(Views(b))
      ensures backend.banned == old(backend.banned) - Freed([old(current.item.View())], now)
    {
      hide Linked, SweptHost, Expired, Freed, Separate, Views, Items;
      var removed;
      removed, next := SweepNext(prev, current, now, kept, rest, a, b);
      KeepOrDrop(kept, current, rest, a, b, removed);
      if removed {
        kept', a', prev', hostc' := kept, a, prev, hostc;
      } else {
        kept', a', prev', hostc' := kept + [current], a + [current.item], current, hostc + 1;
      }
    }

    /** One walk over the list: release what is over, unlink what has expired, count the rest. */
    method SweepWalk(now: nat) returns (hostc: nat, ghost kept: seq<Node<HostRec>>, ghost a: seq<HostRec>)
      requires Linked(ipaddrs, spine) && Separate(Recs())
      modifies this`ipaddrs, backend, set r | r in Recs(), set n | n in spine
      ensures Linked(ipaddrs, kept) && Separate(a) && a == Items(kept) && hostc == |kept|
      ensures (forall n :: n in kept ==> n in spine) && (forall r :: r in a ==> r in Recs())
      ensures Views(a) == SweepHosts(cfg, old(Views(Recs())), now)
      ensures backend.banned == old(backend.banned) - Freed(old(Views(Recs())), now)
    {
      hide Linked, Separate, SweptHost, Expired, Freed, Items, Views, SweepHosts;
      ghost var rest := spine;
      ghost var b: seq<HostRec> := Recs();
      ghost var done: seq<Host> := [];
      kept, a, hostc := [], [], 0;
      SweepStart(cfg, b, now);
      First(ipaddrs, spine);
      ItemsEmpty<HostRec>();
      assert kept + rest == spine && a + b == b;
      var node, prev: Node?<HostRec> := ipaddrs, null;
      while node != null
        invariant Linked(ipaddrs, kept + rest) && Separate(a + b) && a == Items(kept) && b == Items(rest)
        invariant |b| == |rest| && hostc == |kept|
        invariant (forall n :: n in kept || n in rest ==> n in spine) && (forall r :: r in a || r in b ==> r in Recs())
        invariant node == if rest == [] then null else rest[0]
        invariant prev == if kept == [] then null else kept[|kept| - 1]
        invariant done + Views(b) == old(Views(Recs()))
        invariant Views(a) == SweepHosts(cfg, done, now)
        invariant backend.banned == old(backend.banned) - Freed(done, now)
        decreases |rest|
      {
        var current: Node<HostRec> := node;
        ghost var tail, b' := rest[1..], b[1..];
        ghost var h := current.item.View();
        SplitFirst(rest, b);
        Regroup(kept, current, tail); Regroup(a, current.item, b');
        assert current.item in b && current in rest && (prev != null ==> prev in kept);
        ViewsFront(current.item, b');
        node, prev, hostc, kept, a := SweepStep(prev, current, hostc, now, kept, tail, a, b');
        SweepLast(cfg, done, h, now);
        done, rest, b := done + [h], tail, b';
      }
      assert rest == [] && b == [] && kept + rest == kept && a + b == a;
      SweepStart(cfg, b, now);
      assert done + Views(b) == done;
    }

    method Sweep(now: nat)
      requires Shape() && forall r :: r in Recs() ==> r.matches.Valid()
      modifies this`ipaddrs, this`spine, this`hosts, backend, set r | r in Recs(), set n | n in spine
      ensures Shape() && forall r :: r in Recs() ==> r.matches.Valid()
      ensures View() == J.Sweep(cfg, old(View()), now)
    {
      hide Linked, Separate, Freed, Items, Views, SweepHosts;
      ghost var kept, a;
      var hostc;
      hostc, kept, a := SweepWalk(now);
      spine := kept;
      hosts := hostc;
      ViewsLength(a);
      ItemsEmpty<HostRec>();
    }
  }

  /** What taking one node out of a list means for its hosts. */
  lemma Unlinked(before: seq<Node<HostRec>>, current: Node<HostRec>, tail: seq<Node<HostRec>>, text: string)
    requires Separate(Items(before + [current] + tail)) && current.item.text == text
    requires forall n :: n in before ==> n.item.text != text
    ensures Separate(Items(before + tail))
    ensures Views(Items(before + tail)) == Removed(Views(Items(before + [current] + tail)), text)
  {
    hide Separate, Removed;
    var a, b := Items(before), Items(tail);
    assert Items(before + [current] + tail) == a + [current.item] + b && Items(before + tail) == a + b;
    SeparateWithout(a, current.item, b);
    var views := Views(a + [current.item] + b);
    assert forall i :: 0 <= i < |before| ==> before[i] in before && views[i].text == before[i].item.text;
    RemovedAt(views, text, |before|);
    assert Views(a + b) == views[..|before|] + views[|before| + 1..];
  }

  lemma {:induction false} FoundFirst(hosts: seq<Host>, text: string, i: nat)
    requires i <= |hosts| && (i < |hosts| ==> hosts[i].text == text) && forall k :: 0 <= k < i ==> hosts[k].text != text
    ensures Lookup(hosts, text) == i
  {
    if i > 0 { FoundFirst(hosts[1..], text, i - 1); }
  }

  lemma RemovedAt(hosts: seq<Host>, text: string, i: nat)
    requires i < |hosts| && hosts[i].text == text && forall k :: 0 <= k < i ==> hosts[k].text != text
    ensures Removed(hosts, text) == hosts[..i] + hosts[i + 1..]
  {
    FoundFirst(hosts, text, i);
  }

  lemma NotListed(spine: seq<Node<HostRec>>, text: string)
    requires forall n :: n in spine ==> n.item.text != text
    ensures Removed(Views(Items(spine)), text) == Views(Items(spine))
  {
    var hosts := Views(Items(spine));
    assert forall k :: 0 <= k < |hosts| ==> spine[k] in spine && hosts[k].text == spine[k].item.text;
    FoundFirst(hosts, text, |hosts|);
  }

  lemma Regroup<T>(a: seq<T>, x: T, b: seq<T>)
    ensures a + ([x] + b) == a + [x] + b == (a + [x]) + b
  {}

  lemma SplitFirst(rest: seq<Node<HostRec>>, b: seq<HostRec>)
    requires rest != [] && b == Items(rest)
    ensures |b| == |rest| && b[0] == rest[0].item && b[1..] == Items(rest[1..])
    ensures b == [b[0]] + b[1..] && rest == [rest[0]] + rest[1..]
  {}

  /** The kept part of the list, with or without the current node. */
  lemma KeepOrDrop(kept: seq<Node<HostRec>>, current: Node<HostRec>, tail: seq<Node<HostRec>>,
                   a: seq<HostRec>, b: seq<HostRec>, removed: bool)
    requires a == Items(kept) && b == Items(tail)
    ensures var kept', a' := if removed then kept else kept + [current], if removed then a else a + [current.item];
            && a' == Items(kept')
            && kept' + tail == (if removed then kept + tail else kept + [current] + tail)
            && a' + b == (if removed then a + b else a + [current.item] + b)
            && Views(a') == Views(a) + if removed then [] else [current.item.View()]
  {
    ItemsAppend(kept, [current]);
    ItemsSingle(current);
    ViewsAppend(a, [current.item]);
    ViewsSingle(current.item);
  }

  lemma SweepStart(c: Config, b: seq<HostRec>, now: nat)
    ensures Views([]) == SweepHosts(c, [], now) == [] && Freed([], now) == {} && [] + Views(b) == Views(b)
  {}

  lemma ViewsLength(a: seq<HostRec>)
    ensures |Views(a)| == |a|
  {}

  /** The sweep of a list with one more host at its end. */
  lemma SweepLast(c: Config, done: seq<Host>, h: Host, now: nat)
    ensures var g := SweptHost(h, now);
            SweepHosts(c, done + [h], now) == SweepHosts(c, done, now) + if Expired(c, g, now) then [] else [g]
    ensures Freed(done + [h], now) == Freed(done, now) + Freed([h], now)
  {
    assert (done + [h])[..|done|] == done;
  }

  lemma FindOrCreateCases(hosts: seq<Host>, text: string)
    ensures Lookup(hosts, text) < |hosts| ==> FindOrCreate(hosts, text) == hosts
    ensures Lookup(hosts, text) >= |hosts| ==> FindOrCreate(hosts, text) == [NewHost(text).(lastseen := 0)] + hosts
    ensures Lookup([NewHost(text).(lastseen := 0)] + hosts, text) == 0
    ensures Lookup(hosts, text) <= |hosts|
  {
    LookupFinds(hosts, text);
  }
}
