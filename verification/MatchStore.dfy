/** The linked match list of matches.c, updated in place. */
module MatchStore {
  import opened Chain
  import opened Matches
  import M = Matches

  class MatchList {
    var head: Node?<Match>
    var count: int
    var last: nat
    ghost var spine: seq<Node<Match>>

    ghost predicate Valid()
      reads this, spine
    {
      Linked(head, spine)
    }

    ghost function Nodes(): set<Node<Match>>
      reads this
    {
      set n | n in spine
    }

    ghost function View(): Log
      reads this
    {
      Log(Items(spine), count, last)
    }

    constructor ()
      ensures Valid() && View() == EMPTY && spine == []
    {
      head, count, last, spine := null, 0, 0, [];
    }

    method Flush()
      modifies this
      ensures Valid() && View() == EMPTY && spine == []
    {
      head, count, last, spine := null, 0, 0, [];
    }

    method Prepend(m: Node<Match>)
      requires Valid() && m !in spine
      modifies this, m
      ensures Valid() && spine == [m] + old(spine)
      ensures View() == M.Prepend(old(View()), m.item)
    {
      Push(m, head, spine);
      head := m;
      count := count + 1;
      last := if m.item.time > last then m.item.time else last;
      spine := [m] + spine;
      assert Items(spine)[1..] == Items(old(spine));
    }

    method Score(after: int) returns (score: int)
      requires Valid()
      ensures score == M.Score(View().list, after)
    {
      score := 0;
      var node := head;
      ghost var i := 0;
      while node != null
        invariant 0 <= i <= |spine| && node == if i < |spine| then spine[i] else null
        invariant score + M.Score(Items(spine)[i..], after) == M.Score(View().list, after)
        decreases |spine| - i
      {
        if after > node.item.time {
          break;
        }
        score := score + node.item.score;
        node := node.next;
        i := i + 1;
      }
    }

    /** Unlink in place every match that is not newer than the limit. */
    method Expire(before: int)
      requires Valid()
      modifies this, Nodes()
      ensures Valid() && Nodes() <= old(Nodes())
      ensures View() == M.Expire(old(View()), before)
    {
      hide Linked, Newer, Items;
      First(head, spine);
      ItemsEmpty<Match>();
      if head == null {
        return;
      }
      ghost var kept: seq<Node<Match>> := [];
      ghost var rest: seq<Node<Match>> := spine;
      ghost var done: seq<Match> := [];
      NewerNone([], before);
      var node, prev: Node?<Match> := head, null;
      while node != null
        invariant spine == kept + rest && Nodes() <= old(Nodes()) && Valid()
        invariant node == if rest == [] then null else rest[0]
        invariant prev == if kept == [] then null else kept[|kept| - 1]
        invariant done + Items(rest) == old(View().list) && |Items(kept)| == |kept|
        invariant Items(kept) == Newer(done, before)
        invariant count == old(count) - (|done| - |kept|) && last == old(last)
        decreases |rest|
      {
        var current: Node<Match> := node;
        ghost var tail := rest[1..];
        assert rest == [current] + tail;
        assert spine == kept + [current] + tail;
        Successor(head, kept, current, tail);
        ItemsAppend([current], tail); ItemsAppend(kept, [current]); ItemsSingle(current);
        NewerLast(done, current.item, before);
        assert prev != null ==> prev in Nodes();
        if current.item.time > before {
          kept := kept + [current];
          prev := current;
          node := current.next;
        } else {
          head, node := Unlink(head, prev, current, kept, tail);
          spine := kept + tail;
          count := count - 1;
        }
        done := done + [current.item];
        rest := tail;
      }
      assert Items(rest) == [] && done == old(View().list) && spine == kept;
      FinishExpire(kept);
    }

    /** Refresh the latest time from the new head. */
    method FinishExpire(ghost kept: seq<Node<Match>>)
      requires Valid() && spine == kept
      modifies this`last
      ensures last == if Items(kept) == [] then 0 else Items(kept)[0].time
    {
      last := if head != null then head.item.time else 0;
    }
  }

  lemma NewerLast(ms: seq<Match>, m: Match, before: int)
    ensures Newer(ms + [m], before) == Newer(ms, before) + if m.time > before then [m] else []
  {
    NewerAppend(ms, [m], before);
  }
}
