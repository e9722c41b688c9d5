/** The host structure of ipaddr.c, updated in place, and chains of hosts. */
module HostRecord {
  import opened Chain
  import opened Hosts
  import opened Matches
  import opened MatchStore
  import opened Jail

  class HostRec {
    const text: string
    const matches: MatchList
    var banned: bool
    var bancount: nat
    var lastseen: nat
    var bannedAt: int
    var releaseAt: int

    ghost function View(): Host
      reads this, matches
    {
      Host(text, banned, bancount, lastseen, bannedAt, releaseAt, matches.View())
    }

    constructor (text: string, lastseen: nat)
      ensures this.text == text && View() == NewHost(text).(lastseen := lastseen) && matches.Valid()
      ensures fresh(matches) && matches.spine == []
    {
      this.text := text;
      matches := new MatchList();
      this.lastseen := lastseen;
      banned, bancount, bannedAt, releaseAt := false, 0, 0, 0;
    }

    /** Put a match on record; the host was last seen at its time. */
    method Seen(m: Match)
      requires matches.Valid()
      modifies this, matches
      ensures View() == SeenHost(old(View()), m) && matches.Valid()
      ensures fresh(matches.Nodes() - old(matches.Nodes()))
    {
      lastseen := m.time;
      var node := new Node(m);
      matches.Prepend(node);
    }

    method Trim(c: Config, now: nat)
      requires matches.Valid()
      modifies matches, matches.Nodes()
      ensures View() == TrimmedHost(c, old(View()), now) && matches.Valid()
      ensures matches.Nodes() <= old(matches.Nodes())
    {
      matches.Expire(now - FindTime(c, bancount) - EXTRA_WINDOW);
    }
  }

  /** No two hosts of a list share a record, a history or a node of a history. */
  ghost predicate Separate(recs: seq<HostRec>)
    reads set r | r in recs :: r.matches
  {
    forall i, k :: 0 <= i < |recs| && 0 <= k < |recs| && i != k ==>
      recs[i] != recs[k] && recs[i].matches != recs[k].matches && Apart(recs[i].matches, recs[k].matches)
  }

  ghost predicate Apart(a: MatchList, b: MatchList)
    reads a, b
  {
    a.Nodes() !! b.Nodes()
  }

  ghost function Views(recs: seq<HostRec>): seq<Host>
    reads recs, set r | r in recs :: r.matches
  {
    seq(|recs|, i requires 0 <= i < |recs| reads recs, set r | r in recs :: r.matches => recs[i].View())
  }

  /** The objects of all hosts of a list are among the given ones. */
  ghost predicate Within(recs: seq<HostRec>, repr: set<object>)
    reads set r | r in recs :: r.matches
  {
    forall r :: r in recs ==> r in repr && r.matches in repr && r.matches.Nodes() <= repr
  }

  lemma WithinFront(addr: HostRec, recs: seq<HostRec>, repr: set<object>, repr': set<object>)
    requires Within(recs, repr) && repr <= repr'
    requires addr in repr' && addr.matches in repr' && addr.matches.Nodes() == {}
    ensures Within([addr] + recs, repr')
  {}

  lemma WithinMore(recs: seq<HostRec>, repr: set<object>, repr': set<object>)
    requires Within(recs, repr) && repr <= repr'
    ensures Within(recs, repr')
  {}

  lemma SeparateFront(addr: HostRec, recs: seq<HostRec>)
    requires Separate(recs) && addr.matches.Nodes() == {}
    requires forall r :: r in recs ==> r != addr && r.matches != addr.matches
    ensures Separate([addr] + recs)
  {
    var all := [addr] + recs;
    forall i, k | 0 <= i < |all| && 0 <= k < |all| && i != k
      ensures all[i] != all[k] && all[i].matches != all[k].matches && Apart(all[i].matches, all[k].matches)
    {
      if i > 0 && k > 0 { assert all[i] == recs[i - 1] && all[k] == recs[k - 1]; }
      else if i > 0 { assert all[i] == recs[i - 1] && all[i] in recs; }
      else { assert all[k] == recs[k - 1] && all[k] in recs; }
    }
  }

  lemma ViewsFront(addr: HostRec, recs: seq<HostRec>)
    ensures Views([addr] + recs) == [addr.View()] + Views(recs)
  {}

  /** Removing one record from a list keeps the rest apart. */
  lemma SeparateWithout(a: seq<HostRec>, r: HostRec, b: seq<HostRec>)
    requires Separate(a + [r] + b)
    ensures Separate(a + b)
    ensures forall x :: x in a || x in b ==> x != r && x.matches != r.matches
  {
    var all, rest := a + [r] + b, a + b;
    assert all[|a|] == r;
    forall i, k | 0 <= i < |rest| && 0 <= k < |rest| && i != k
      ensures rest[i] != rest[k] && rest[i].matches != rest[k].matches && Apart(rest[i].matches, rest[k].matches)
    {
      var i', k' := if i < |a| then i else i + 1, if k < |a| then k else k + 1;
      assert all[i'] == rest[i] && all[k'] == rest[k];
    }
    forall x | x in a || x in b ensures x != r && x.matches != r.matches {
      if x in a {
        var i :| 0 <= i < |a| && a[i] == x;
        assert all[i] == x;
      } else {
        var i :| 0 <= i < |b| && b[i] == x;
        assert all[|a| + 1 + i] == x;
      }
    }
  }

  lemma ViewsAppend(a: seq<HostRec>, b: seq<HostRec>)
    ensures Views(a + b) == Views(a) + Views(b)
  {}

  lemma ViewsSingle(r: HostRec)
    ensures Views([r]) == [r.View()]
  {}

  /** A new host, apart from the hosts of a list. */
  method NewFront(text: string, lastseen: nat, ghost recs: seq<HostRec>, ghost repr: set<object>)
    returns (addr: HostRec, ghost repr': set<object>)
    requires Separate(recs) && Within(recs, repr) && forall r :: r in recs ==> r.matches.Valid()
    ensures Separate([addr] + recs) && Within([addr] + recs, repr')
    ensures repr' == repr + {addr, addr.matches} && fresh(repr' - repr)
    ensures forall r :: r in [addr] + recs ==> r.matches.Valid()
    ensures Views([addr] + recs) == [NewHost(text).(lastseen := lastseen)] + old(Views(recs))
  {
    hide NewHost, Separate, Views, Within;
    ghost var views := Views(recs);
    addr := new HostRec(text, lastseen);
    assert forall r :: r in recs ==> r != addr && r.matches != addr.matches;
    SeparateFront(addr, recs);
    ViewsFront(addr, recs);
    assert Views(recs) == views;
    repr' := repr + {addr, addr.matches};
    WithinFront(addr, recs, repr, repr');
  }
}
