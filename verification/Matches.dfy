/** The per-host history of scored matches (matches.c): a singly linked list, newest first,
    with a counter and the time of the latest match. */
module Matches {
  datatype Match = Match(time: nat, stag: nat, ftag: nat, score: int)

  /** The value of a match container: list contents, count field, last field. */
  datatype Log = Log(list: seq<Match>, count: int, last: nat)

  const EMPTY: Log := Log([], 0, 0)

  function Prepend(l: Log, m: Match): Log {
    Log([m] + l.list, l.count + 1, if m.time > l.last then m.time else l.last)
  }

  function Newer(ms: seq<Match>, before: int): seq<Match> {
    if ms == [] then []
    else if ms[0].time > before then [ms[0]] + Newer(ms[1..], before)
    else Newer(ms[1..], before)
  }

  function Expire(l: Log, before: int): Log {
    if l.list == [] then l
    else
      var kept := Newer(l.list, before);
      Log(kept, l.count - (|l.list| - |kept|), if kept == [] then 0 else kept[0].time)
  }

  /** The sum that stops at the first match older than the limit. */
  function Score(ms: seq<Match>, after: int): int {
    if ms == [] || after > ms[0].time then 0 else ms[0].score + Score(ms[1..], after)
  }

  function Total(ms: seq<Match>): int {
    if ms == [] then 0 else ms[0].score + Total(ms[1..])
  }

  ghost predicate NewestFirst(ms: seq<Match>) {
    forall i, j :: 0 <= i < j < |ms| ==> ms[i].time >= ms[j].time
  }

  function LatestTime(ms: seq<Match>): nat {
    if ms == [] then 0
    else var t := LatestTime(ms[1..]); if ms[0].time > t then ms[0].time else t
  }

  /** What every history keeps: sorted, counted, with the latest time on record. */
  ghost predicate Sound(l: Log, clock: nat) {
    && NewestFirst(l.list)
    && l.count == |l.list|
    && l.last == LatestTime(l.list)
    && forall m :: m in l.list ==> m.time <= clock
  }

  // --- Newer is exactly the filter by time ---

  lemma {:induction false} NewerIsSubsequence(ms: seq<Match>, before: int)
    ensures |Newer(ms, before)| <= |ms|
    ensures forall m :: m in Newer(ms, before) <==> m in ms && m.time > before
  {
    if ms != [] {
      NewerIsSubsequence(ms[1..], before);
      assert ms == [ms[0]] + ms[1..];
    }
  }

  lemma {:induction false} NewerIsSorted(ms: seq<Match>, before: int)
    requires NewestFirst(ms)
    ensures NewestFirst(Newer(ms, before))
  {
    if ms != [] {
      NewerIsSorted(ms[1..], before);
      NewerIsSubsequence(ms[1..], before);
      var rest := Newer(ms[1..], before);
      assert forall m :: m in ms[1..] ==> m.time <= ms[0].time;
      assert forall i :: 0 <= i < |rest| ==> rest[i] in rest;
    }
  }

  lemma {:induction false} NewerNone(ms: seq<Match>, before: int)
    requires forall m :: m in ms ==> m.time <= before
    ensures Newer(ms, before) == []
  {
    if ms != [] {
      assert ms[0] in ms;
      NewerNone(ms[1..], before);
    }
  }

  lemma {:induction false} NewerAppend(a: seq<Match>, b: seq<Match>, before: int)
    ensures Newer(a + b, before) == Newer(a, before) + Newer(b, before)
  {
    if a == [] {
      assert a + b == b;
    } else {
      assert (a + b)[1..] == a[1..] + b;
      NewerAppend(a[1..], b, before);
    }
  }

  /** On a sorted history expiry cuts the list at one point: a prefix stays. */
  lemma {:induction false} NewerIsPrefix(ms: seq<Match>, before: int)
    requires NewestFirst(ms)
    ensures Newer(ms, before) <= ms
  {
    if ms != [] {
      NewerIsPrefix(ms[1..], before);
      if ms[0].time <= before {
        NewerNone(ms[1..], before);
      }
    }
  }

  // --- the early exit is only an optimization on sorted histories ---

  lemma {:induction false} ScoreIsTotalOfRecent(ms: seq<Match>, after: int)
    requires NewestFirst(ms)
    ensures Score(ms, after) == Total(Newer(ms, after - 1))
  {
    if ms != [] {
      ScoreIsTotalOfRecent(ms[1..], after);
      if after > ms[0].time {
        NewerNone(ms, after - 1);
      }
    }
  }

  lemma {:induction false} ScoreOfRecentList(ms: seq<Match>, after: int)
    requires forall m :: m in ms ==> m.time >= after
    ensures Score(ms, after) == Total(ms)
  {
    if ms != [] {
      assert ms[0] in ms;
      ScoreOfRecentList(ms[1..], after);
    }
  }

  // --- every operation keeps a history sound ---

  lemma {:induction false} LatestTimeIsMaximum(ms: seq<Match>)
    ensures forall m :: m in ms ==> m.time <= LatestTime(ms)
    ensures ms != [] ==> exists m :: m in ms && m.time == LatestTime(ms)
  {
    if ms != [] {
      LatestTimeIsMaximum(ms[1..]);
      assert ms == [ms[0]] + ms[1..];
      if ms[1..] != [] && ms[0].time <= LatestTime(ms[1..]) {
        var m :| m in ms[1..] && m.time == LatestTime(ms[1..]);
        assert m in ms;
      } else {
        assert ms[0] in ms;
      }
    }
  }

  lemma SortedLatestIsHead(ms: seq<Match>)
    requires NewestFirst(ms) && ms != []
    ensures LatestTime(ms) == ms[0].time
  {
    LatestTimeIsMaximum(ms);
    var m :| m in ms && m.time == LatestTime(ms);
    var i :| 0 <= i < |ms| && ms[i] == m;
    assert ms[0] in ms;
  }

  lemma PrependKeepsSound(l: Log, m: Match, clock: nat)
    requires Sound(l, clock) && m.time >= clock
    ensures Sound(Prepend(l, m), m.time)
  {
    var ms := [m] + l.list;
    assert ms[1..] == l.list;
    assert forall i :: 0 <= i < |l.list| ==> l.list[i] in l.list;
  }

  lemma ExpireKeepsSound(l: Log, before: int, clock: nat)
    requires Sound(l, clock)
    ensures Sound(Expire(l, before), clock)
  {
    NewerIsSubsequence(l.list, before);
    NewerIsSorted(l.list, before);
    if Expire(l, before).list != [] { SortedLatestIsHead(Expire(l, before).list); }
  }
}
