/** A known host (ipaddr.c) as a value, and lists of hosts. */
module Hosts {
  import opened Matches

  const TEXT_MAX := 47

  datatype Host = Host(
    text: string,
    banned: bool,
    bancount: nat,
    lastseen: nat,
    bannedAt: int,
    releaseAt: int,
    matches: Log)

  predicate AddressChar(c: char) {
    '0' <= c <= '9' || 'a' <= c <= 'f' || 'A' <= c <= 'F' || c == '.' || c == ':'
  }

  /** Any text that inet_pton can accept has this shape. */
  predicate AddressShape(t: string) {
    1 <= |t| <= TEXT_MAX && forall i :: 0 <= i < |t| ==> AddressChar(t[i])
  }

  /** The address check of the platform, for both families. */
  type Acceptor = string -> bool

  predicate ValidAddress(accepts: Acceptor, t: string) {
    AddressShape(t) && accepts(t)
  }

  function NewHost(text: string): Host {
    Host(text, false, 0, 0, 0, 0, EMPTY)
  }

  /** The index of the first host with the text, or the length of the list. */
  function Lookup(hosts: seq<Host>, text: string): nat {
    if hosts == [] || hosts[0].text == text then 0 else 1 + Lookup(hosts[1..], text)
  }

  ghost predicate UniqueTexts(hosts: seq<Host>) {
    forall i, j :: 0 <= i < j < |hosts| ==> hosts[i].text != hosts[j].text
  }

  lemma {:induction false} LookupFinds(hosts: seq<Host>, text: string)
    ensures var i := Lookup(hosts, text);
            && i <= |hosts|
            && (forall j :: 0 <= j < i ==> hosts[j].text != text)
            && (i < |hosts| ==> hosts[i].text == text)
  {
    if hosts != [] && hosts[0].text != text {
      LookupFinds(hosts[1..], text);
    }
  }

  /** The list without the first host of the text. */
  function Removed(hosts: seq<Host>, text: string): seq<Host> {
    LookupFinds(hosts, text);
    var i := Lookup(hosts, text);
    if i < |hosts| then hosts[..i] + hosts[i + 1..] else hosts
  }

  /** Removing takes out the host of the text and no other. */
  lemma RemovedGone(hosts: seq<Host>, text: string)
    requires UniqueTexts(hosts)
    ensures var rest := Removed(hosts, text);
            && UniqueTexts(rest) && Lookup(rest, text) == |rest|
            && (forall h :: h in rest <==> h in hosts && h.text != text)
  {
    var i, rest := Lookup(hosts, text), Removed(hosts, text);
    LookupFinds(hosts, text);
    LookupFinds(rest, text);
    assert forall k :: 0 <= k < |rest| ==> rest[k] == if k < i then hosts[k] else hosts[k + 1];
    forall h | h in hosts && h.text != text ensures h in rest {
      var k :| 0 <= k < |hosts| && hosts[k] == h;
      assert i < |hosts| ==> rest[if k < i then k else k - 1] == h;
    }
  }

  /** Removing undoes adding a new host. */
  lemma RemoveUndoesAdd(hosts: seq<Host>, h: Host)
    ensures Removed([h] + hosts, h.text) == hosts
  {
    assert ([h] + hosts)[1..] == hosts;
  }
}
