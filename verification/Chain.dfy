/** Singly linked chains: the "next" pointers of the source's list structures. */
module Chain {
  class Node<T> {
    var next: Node?<T>
    const item: T

    constructor (item: T)
      ensures this.item == item && next == null
    {
      this.item := item;
      next := null;
    }
  }

  function Items<T>(spine: seq<Node<T>>): seq<T> {
    seq(|spine|, i requires 0 <= i < |spine| => spine[i].item)
  }

  /** The nodes of spine are distinct and linked in order, from head to null. */
  ghost predicate Linked<T>(head: Node?<T>, spine: seq<Node<T>>)
    reads spine
  {
    && (head == if spine == [] then null else spine[0])
    && (forall i, j :: 0 <= i < j < |spine| ==> spine[i] != spine[j])
    && (forall i {:trigger spine[i].next} :: 0 <= i < |spine| ==> spine[i].next == if i + 1 < |spine| then spine[i + 1] else null)
  }

  lemma ItemsEmpty<T>()
    ensures forall spine: seq<Node<T>> :: |Items(spine)| == |spine|
  {}

  lemma ItemsSingle<T>(n: Node<T>)
    ensures Items([n]) == [n.item]
  {}

  lemma ItemsAppend<T>(a: seq<Node<T>>, b: seq<Node<T>>)
    ensures Items(a + b) == Items(a) + Items(b)
  {}

  /** Put a node in front of the chain. */
  method Push<T>(n: Node<T>, head: Node?<T>, ghost spine: seq<Node<T>>)
    requires Linked(head, spine) && n !in spine
    modifies n
    ensures Linked(n, [n] + spine)
  {
    n.next := head;
    ghost var all := [n] + spine;
    assert forall i :: 0 <= i < |spine| ==> spine[i] in spine && spine[i] == all[i + 1];
    forall i | 0 <= i < |all|
      ensures all[i].next == if i + 1 < |all| then all[i + 1] else null
    {
      if i > 0 { assert all[i] == spine[i - 1]; }
    }
    assert Linked(n, all);
  }

  /** Put a node behind the last one: walk to it and set its successor. */
  method Append<T>(n: Node<T>, head: Node?<T>, ghost spine: seq<Node<T>>) returns (head': Node<T>)
    requires Linked(head, spine) && n !in spine && n.next == null
    modifies set m | m in spine
    ensures Linked(head', spine + [n])
  {
    if head == null {
      return n;
    }
    var p: Node<T> := head;
    ghost var i := 0;
    while p.next != null
      invariant 0 <= i < |spine| && p == spine[i] && Linked(head, spine) && n.next == null
      decreases |spine| - i
    {
      p := p.next;
      i := i + 1;
    }
    assert i == |spine| - 1;
    LinkLast(p, n, spine);
    head' := head;
  }

  method LinkLast<T>(p: Node<T>, n: Node<T>, ghost spine: seq<Node<T>>)
    requires spine != [] && Linked(spine[0], spine) && p == spine[|spine| - 1] && n !in spine && n.next == null
    modifies p
    ensures Linked(spine[0], spine + [n])
  {
    ghost var all := spine + [n];
    assert forall i :: 0 <= i < |spine| - 1 ==> spine[i] != p && spine[i] in spine;
    p.next := n;
    forall i | 0 <= i < |all|
      ensures all[i].next == if i + 1 < |all| then all[i + 1] else null
    {
      if i < |spine| - 1 { assert all[i] == spine[i] && all[i + 1] == spine[i + 1]; }
    }
    assert forall i :: 0 <= i < |spine| ==> all[i] == spine[i] && spine[i] in spine;
  }

  lemma Successor<T>(head: Node?<T>, before: seq<Node<T>>, node: Node<T>, after: seq<Node<T>>)
    requires Linked(head, before + [node] + after)
    ensures node.next == if after == [] then null else after[0]
  {
    var all := before + [node] + after;
    assert all[|before|] == node && (after != [] ==> all[|before| + 1] == after[0]);
  }

  lemma First<T>(head: Node?<T>, spine: seq<Node<T>>)
    requires Linked(head, spine)
    ensures head == if spine == [] then null else spine[0]
  {}

  /** Where the nodes of a chain are once the node between before and after is gone. */
  lemma Positions<T>(before: seq<T>, node: T, after: seq<T>)
    ensures var all, rest := before + [node] + after, before + after;
            && all[|before|] == node
            && (forall i :: 0 <= i < |before| ==> rest[i] == all[i] == before[i])
            && (forall i :: |before| <= i < |rest| ==> rest[i] == all[i + 1])
            && (after != [] ==> all[|before| + 1] == after[0])
  {}

  /** Take one node out of the chain, given its predecessor (null for the head). */
  method Unlink<T>(head: Node?<T>, prev: Node?<T>, node: Node<T>,
                   ghost before: seq<Node<T>>, ghost after: seq<Node<T>>)
    returns (head': Node?<T>, next: Node?<T>)
    requires Linked(head, before + [node] + after)
    requires prev == if before == [] then null else before[|before| - 1]
    modifies prev
    ensures Linked(head', before + after)
    ensures next == if after == [] then null else after[0]
  {
    ghost var all, rest := before + [node] + after, before + after;
    ghost var k := |before|;
    Positions(before, node, after);
    assert all[k] == node && all[k].next == if after == [] then null else after[0];
    next := node.next;
    if prev == null {
      head' := next;
      assert rest == after;
    } else {
      RelinkPrevious(prev, next, all, rest, k);
      head' := head;
    }
  }

  method RelinkPrevious<T>(prev: Node<T>, next: Node?<T>, ghost all: seq<Node<T>>, ghost rest: seq<Node<T>>, ghost k: nat)
    requires 0 < k < |all| == |rest| + 1 && Linked(all[0], all)
    requires forall i :: 0 <= i < k ==> rest[i] == all[i]
    requires forall i :: k <= i < |rest| ==> rest[i] == all[i + 1]
    requires prev == all[k - 1] && next == all[k].next
    modifies prev
    ensures Linked(rest[0], rest)
  {
    assert forall j :: 0 <= j < |all| && j != k - 1 ==> all[j] != prev;
    assert next == if k < |rest| then rest[k] else null;
    prev.next := next;
    forall i | 0 <= i < |rest|
      ensures rest[i].next == if i + 1 < |rest| then rest[i + 1] else null
    {
      if i < k - 1 {
        assert rest[i] == all[i] && rest[i + 1] == all[i + 1];
      } else if i >= k {
        assert rest[i] == all[i + 1] && (i + 1 < |rest| ==> rest[i + 1] == all[i + 2]);
      } else {
        assert rest[i] == prev;
      }
    }
  }
}
