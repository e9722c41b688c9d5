/** Backends of kind exec (backends/backend.c, backends/exec.c) that share one set of start and stop
    hooks: a counter per id, kept on a linked list, decides when the hooks run. */
module SharedBackends {
  import opened Chain

  const ID_MAX := 32

  datatype Entry = Entry(name: string, count: nat)

  /** The counter of an id; no entry counts as zero. */
  function CountOf(list: seq<Entry>, id: string): nat {
    if list == [] then 0 else if list[0].name == id then list[0].count else CountOf(list[1..], id)
  }

  /** The place of the first entry of an id, or the length of the list. */
  function PlaceOf(list: seq<Entry>, id: string): (k: nat)
    ensures k <= |list|
    ensures k < |list| ==> list[k].name == id
  {
    if list == [] || list[0].name == id then 0 else 1 + PlaceOf(list[1..], id)
  }

  function Inc(list: seq<Entry>, id: string): seq<Entry> {
    var k := PlaceOf(list, id);
    if k < |list| then list[k := Entry(id, list[k].count + 1)] else [Entry(id, 1)] + list
  }

  function Dec(list: seq<Entry>, id: string): seq<Entry> {
    var k := PlaceOf(list, id);
    if k < |list| && list[k].count > 0 then list[k := Entry(id, list[k].count - 1)] else list
  }

  lemma {:induction false} CountAtPlace(list: seq<Entry>, id: string)
    ensures var k := PlaceOf(list, id); CountOf(list, id) == if k < |list| then list[k].count else 0
  {
    if list != [] && list[0].name != id { CountAtPlace(list[1..], id); }
  }

  lemma {:induction false} CountReplaced(list: seq<Entry>, id: string, n: nat, other: string)
    requires PlaceOf(list, id) < |list|
    ensures CountOf(list[PlaceOf(list, id) := Entry(id, n)], other) == if other == id then n else CountOf(list, other)
  {
    var k := PlaceOf(list, id);
    if k > 0 {
      CountReplaced(list[1..], id, n, other);
      assert list[k := Entry(id, n)][1..] == list[1..][k - 1 := Entry(id, n)];
    } else {
      assert list[0 := Entry(id, n)][1..] == list[1..];
    }
  }

  lemma IncCounts(list: seq<Entry>, id: string, other: string)
    ensures CountOf(Inc(list, id), other) == CountOf(list, other) + if other == id then 1 else 0
  {
    CountAtPlace(list, id);
    var k := PlaceOf(list, id);
    if k < |list| {
      CountReplaced(list, id, list[k].count + 1, other);
    } else {
      assert ([Entry(id, 1)] + list)[1..] == list;
    }
  }

  lemma DecCounts(list: seq<Entry>, id: string, other: string)
    ensures CountOf(Dec(list, id), other) == CountOf(list, other) - if other == id && CountOf(list, id) > 0 then 1 else 0
  {
    CountAtPlace(list, id);
    var k := PlaceOf(list, id);
    if k < |list| && list[k].count > 0 { CountReplaced(list, id, list[k].count - 1, other); }
  }

  // --- instances and their hooks ---

  datatype Instance = Instance(name: string, shared: bool, hasStart: bool, hasStop: bool)

  datatype Hook = Start | Stop

  /** A hook that has been run, for the shared or the private use of an id. */
  datatype Run = Run(name: string, shared: bool, hook: Hook)

  datatype World = World(usage: seq<Entry>, ran: seq<Run>)

  /** The start action of an instance. */
  function OnStart(w: World, b: Instance): World {
    if !b.hasStart then w
    else
      var usage := if b.shared then Inc(w.usage, b.name) else w.usage;
      if b.shared && CountOf(usage, b.name) > 1 then w.(usage := usage)
      else World(usage, w.ran + [Run(b.name, b.shared, Start)])
  }

  /** The stop action of an instance. */
  function OnStop(w: World, b: Instance): World {
    if !b.hasStop then w
    else
      var usage := if b.shared then Dec(w.usage, b.name) else w.usage;
      if b.shared && CountOf(usage, b.name) > 0 then w.(usage := usage)
      else World(usage, w.ran + [Run(b.name, b.shared, Stop)])
  }

  /** An instance with hooks of its own runs them every time and touches no counter. */
  lemma PrivateHooks(w: World, b: Instance)
    requires !b.shared
    ensures OnStart(w, b) == (if b.hasStart then World(w.usage, w.ran + [Run(b.name, false, Start)]) else w)
    ensures OnStop(w, b) == (if b.hasStop then World(w.usage, w.ran + [Run(b.name, false, Stop)]) else w)
  {
    hide CountOf, Inc, Dec;
  }

  /** A shared instance runs its start hook if its id is not in use, and its stop hook if it is in use
      at most once; the counter of its id, and no other, goes up or down with it. */
  lemma SharedHooks(w: World, b: Instance, id: string)
    requires b.shared
    ensures var n, w' := CountOf(w.usage, b.name), OnStart(w, b);
            && w'.ran == w.ran + (if b.hasStart && n == 0 then [Run(b.name, true, Start)] else [])
            && CountOf(w'.usage, id) == CountOf(w.usage, id) + if b.hasStart && id == b.name then 1 else 0
    ensures var n, w' := CountOf(w.usage, b.name), OnStop(w, b);
            && w'.ran == w.ran + (if b.hasStop && n <= 1 then [Run(b.name, true, Stop)] else [])
            && CountOf(w'.usage, id) == CountOf(w.usage, id) - if b.hasStop && id == b.name && n > 0 then 1 else 0
  {
    hide CountOf, Inc, Dec;
    IncCounts(w.usage, b.name, b.name);
    DecCounts(w.usage, b.name, b.name);
    IncCounts(w.usage, b.name, id);
    DecCounts(w.usage, b.name, id);
  }

  /** Starting and stopping an instance again leaves its counter as it was exactly when both hooks or
      none are configured, or there was nothing to take away. */
  lemma PairRestores(w: World, b: Instance)
    ensures CountOf(OnStop(OnStart(w, b), b).usage, b.name) == CountOf(w.usage, b.name)
       <==> !b.shared || b.hasStart == b.hasStop || (b.hasStop && CountOf(w.usage, b.name) == 0)
  {
    hide CountOf, Inc, Dec;
    IncCounts(w.usage, b.name, b.name);
    DecCounts(w.usage, b.name, b.name);
    DecCounts(Inc(w.usage, b.name), b.name, b.name);
  }

  // --- every interleaving ---

  /** Some instances, which of them are started, and the world they act on. */
  datatype System = System(instances: seq<Instance>, started: seq<bool>, world: World)

  datatype Action = Action(index: nat, hook: Hook)

  /** Each instance is started and stopped in turn. */
  predicate Allowed(s: System, a: Action) {
    a.index < |s.started| && s.started[a.index] == a.hook.Stop?
  }

  function Act(s: System, a: Action): System
    requires |s.instances| == |s.started| && Allowed(s, a)
  {
    var b := s.instances[a.index];
    s.(started := s.started[a.index := a.hook.Start?],
       world := if a.hook.Start? then OnStart(s.world, b) else OnStop(s.world, b))
  }

  /** The number of started shared instances of an id. */
  function Users(instances: seq<Instance>, started: seq<bool>, id: string): nat
    requires |instances| == |started|
  {
    if instances == [] then 0
    else
      Users(instances[1..], started[1..], id) +
      if started[0] && instances[0].shared && instances[0].name == id then 1 else 0
  }

  lemma {:induction false} UsersChange(instances: seq<Instance>, started: seq<bool>, i: nat, on: bool, id: string)
    requires |instances| == |started| && i < |started| && started[i] != on
    ensures var b := instances[i];
            var change := if b.shared && b.name == id then if on then 1 else -1 else 0;
            Users(instances, started[i := on], id) == Users(instances, started, id) + change
  {
    if i > 0 {
      UsersChange(instances[1..], started[1..], i - 1, on, id);
      assert started[i := on][1..] == started[1..][i - 1 := on];
    } else {
      assert started[0 := on][1..] == started[1..];
    }
  }

  /** The hooks run for the shared use of an id, in order. */
  function HooksOf(ran: seq<Run>, id: string): seq<Hook> {
    if ran == [] then []
    else
      var r := ran[|ran| - 1];
      HooksOf(ran[..|ran| - 1], id) + if r.shared && r.name == id then [r.hook] else []
  }

  lemma HooksMore(ran: seq<Run>, r: Run, id: string)
    ensures HooksOf(ran + [r], id) == HooksOf(ran, id) + if r.shared && r.name == id then [r.hook] else []
  {
    assert (ran + [r])[..|ran|] == ran;
  }

  /** Start, stop, start and so on, beginning with start. */
  ghost predicate Alternate(hooks: seq<Hook>) {
    forall i :: 0 <= i < |hooks| ==> hooks[i] == if i % 2 == 0 then Start else Stop
  }

  /** Counters count the started instances; the hooks of an id alternate, and it is up while used. */
  ghost predicate Balanced(s: System, id: string) {
    && |s.instances| == |s.started|
    && CountOf(s.world.usage, id) == Users(s.instances, s.started, id)
    && Alternate(HooksOf(s.world.ran, id))
    && (|HooksOf(s.world.ran, id)| % 2 == 1 <==> CountOf(s.world.usage, id) > 0)
  }

  ghost predicate BothHooks(instances: seq<Instance>) {
    forall b :: b in instances && b.shared ==> b.hasStart && b.hasStop
  }

  /** What one action runs for an id: its start hook when the counter leaves zero, its stop hook when
      the counter comes back to zero, and nothing otherwise. */
  lemma ActRuns(s: System, a: Action, id: string)
    requires |s.instances| == |s.started| && Allowed(s, a) && BothHooks(s.instances)
    requires CountOf(s.world.usage, id) == Users(s.instances, s.started, id)
    ensures var s' := Act(s, a);
            var before, after := CountOf(s.world.usage, id), CountOf(s'.world.usage, id);
            && after == Users(s'.instances, s'.started, id)
            && HooksOf(s'.world.ran, id) == HooksOf(s.world.ran, id)
                 + if before == 0 < after then [Start] else if after == 0 < before then [Stop] else []
  {
    hide CountOf, Inc, Dec, HooksOf, Users;
    var b := s.instances[a.index];
    assert b in s.instances;
    UsersChange(s.instances, s.started, a.index, a.hook.Start?, id);
    IncCounts(s.world.usage, b.name, id);
    DecCounts(s.world.usage, b.name, id);
    HooksMore(s.world.ran, Run(b.name, b.shared, a.hook), id);
  }

  lemma ActBalanced(s: System, a: Action, id: string)
    requires Balanced(s, id) && Allowed(s, a) && BothHooks(s.instances)
    ensures Balanced(Act(s, a), id)
  {
    hide CountOf, HooksOf, Users, OnStart, OnStop;
    ActRuns(s, a, id);
  }

  function ActAll(s: System, actions: seq<Action>): System
    requires |s.instances| == |s.started|
    ensures |ActAll(s, actions).instances| == |ActAll(s, actions).started|
    ensures ActAll(s, actions).instances == s.instances
  {
    if actions == [] then s
    else
      var s1 := ActAll(s, actions[..|actions| - 1]);
      if Allowed(s1, actions[|actions| - 1]) then Act(s1, actions[|actions| - 1]) else s1
  }

  /** Nothing started, nothing counted, nothing run. */
  predicate Idle(s: System) {
    |s.instances| == |s.started| && s.world == World([], []) && forall i :: 0 <= i < |s.started| ==> !s.started[i]
  }

  lemma {:induction false} NoUsers(instances: seq<Instance>, started: seq<bool>, id: string)
    requires |instances| == |started| && forall i :: 0 <= i < |started| ==> !started[i]
    ensures Users(instances, started, id) == 0
  {
    if instances != [] { NoUsers(instances[1..], started[1..], id); }
  }

  /** After any interleaving of starts and stops. */
  lemma {:induction false} AlwaysBalanced(s: System, actions: seq<Action>, id: string)
    requires Idle(s) && BothHooks(s.instances)
    ensures Balanced(ActAll(s, actions), id)
  {
    hide CountOf, HooksOf, Users, Act;
    if actions == [] {
      NoUsers(s.instances, s.started, id);
      NoHooks(id);
    } else {
      AlwaysBalanced(s, actions[..|actions| - 1], id);
      var s1, a := ActAll(s, actions[..|actions| - 1]), actions[|actions| - 1];
      if Allowed(s1, a) { ActBalanced(s1, a, id); }
    }
  }

  lemma ActOnce(s: System, a: Action)
    requires |s.instances| == |s.started| && Allowed(s, a)
    ensures ActAll(s, [a]) == Act(s, a)
  {
    hide Act;
    assert [a][..0] == [] && ActAll(s, []) == s;
  }

  lemma ActTwice(s: System, a: Action, b: Action)
    requires |s.instances| == |s.started| && Allowed(s, a) && Allowed(Act(s, a), b)
    ensures ActAll(s, [a, b]) == Act(Act(s, a), b)
  {
    hide Act;
    ActOnce(s, a);
    assert [a, b][..1] == [a];
  }

  /** A shared instance without a start hook is never counted, one without a stop hook never again less:
      starting it, or starting and stopping it, breaks the balance. */
  lemma MissingHook(s: System, i: nat) returns (actions: seq<Action>)
    requires Idle(s) && i < |s.instances| && s.instances[i].shared
    requires !s.instances[i].hasStart || !s.instances[i].hasStop
    ensures !Balanced(ActAll(s, actions), s.instances[i].name)
  {
    hide HooksOf, Users, Inc, Dec, CountOf, Alternate;
    var b := s.instances[i];
    var on, off := Action(i, Start), Action(i, Stop);
    NoUsers(s.instances, s.started, b.name);
    NoHooks(b.name);
    UsersChange(s.instances, s.started, i, true, b.name);
    IncCounts([], b.name, b.name);
    if !b.hasStart {
      ActOnce(s, on);
      actions := [on];
    } else {
      var s1 := Act(s, on);
      ActTwice(s, on, off);
      UsersChange(s.instances, s1.started, i, false, b.name);
      actions := [on, off];
    }
  }

  /** Counters and hooks stay in balance over every interleaving exactly when every shared instance has
      both hooks. */
  lemma BalancedExactlyWhen(s: System)
    requires Idle(s)
    ensures BothHooks(s.instances) <==> forall actions, id :: Balanced(ActAll(s, actions), id)
  {
    hide Balanced, ActAll;
    if BothHooks(s.instances) {
      forall actions, id ensures Balanced(ActAll(s, actions), id) { AlwaysBalanced(s, actions, id); }
    } else {
      var b :| b in s.instances && b.shared && !(b.hasStart && b.hasStop);
      var i :| 0 <= i < |s.instances| && s.instances[i] == b;
      var actions := MissingHook(s, i);
    }
  }

  lemma NoHooks(id: string)
    ensures HooksOf([], id) == [] && CountOf([], id) == 0
  {}

  // --- the list and the instances, updated in place ---

  class Counter {
    const name: string
    var count: nat

    constructor (name: string)
      ensures this.name == name && count == 0
    {
      this.name, count := name, 0;
    }
  }

  ghost function Entries(items: seq<Counter>): seq<Entry>
    reads items
  {
    seq(|items|, i requires 0 <= i < |items| reads items => Entry(items[i].name, items[i].count))
  }

  lemma {:induction false} PlaceFound(list: seq<Entry>, id: string, k: nat)
    requires k <= |list| && forall i :: 0 <= i < k ==> list[i].name != id
    requires k < |list| ==> list[k].name == id
    ensures PlaceOf(list, id) == k
  {
    if k > 0 { PlaceFound(list[1..], id, k - 1); }
  }

  /** The list of counters that all backends share. */
  class Registry {
    var head: Node?<Counter>
    ghost var spine: seq<Node<Counter>>
    ghost var items: seq<Counter>

    ghost predicate Valid()
      reads this, spine
    {
      && Linked(head, spine) && items == Items(spine)
      && forall i, j :: 0 <= i < j < |items| ==> items[i] != items[j]
    }

    ghost function View(): seq<Entry>
      reads this, items
    {
      Entries(items)
    }

    constructor ()
      ensures Valid() && View() == []
    {
      head, spine, items := null, [], [];
    }

    /** The first counter of an id. */
    method Search(id: string) returns (e: Counter?, ghost k: nat)
      requires Valid()
      ensures k == PlaceOf(View(), id)
      ensures e == if k < |items| then items[k] else null
    {
      hide PlaceOf;
      var node := head;
      k := 0;
      while node != null && node.item.name != id
        invariant k <= |spine| == |items| && node == if k < |spine| then spine[k] else null
        invariant forall i :: 0 <= i < k ==> View()[i].name != id
        decreases |spine| - k
      {
        node := node.next;
        k := k + 1;
      }
      PlaceFound(View(), id, k);
      e := if node == null then null else node.item;
    }

    /** usage_inc */
    method Increment(id: string) returns (n: nat)
      requires Valid() && |id| <= ID_MAX
      modifies this, items
      ensures Valid() && fresh(set e | e in items && e !in old(items))
      ensures View() == Inc(old(View()), id) && n == CountOf(View(), id)
    {
      hide PlaceOf, CountOf, Linked, Items;
      ghost var view := View();
      var e, k := Search(id);
      CountAtPlace(view, id);
      IncCounts(view, id, id);
      if e != null {
        e.count := e.count + 1;
        assert View() == view[k := Entry(id, view[k].count + 1)];
        return e.count;
      }
      n := AddCounter(id);
    }

    /** A new counter in front of the list, used once. */
    method AddCounter(id: string) returns (n: nat)
      requires Valid()
      modifies this
      ensures Valid() && fresh(set e | e in items && e !in old(items))
      ensures View() == [Entry(id, 1)] + old(View()) && n == 1
    {
      hide Linked, Items;
      ghost var view := View();
      var e := new Counter(id);
      e.count := e.count + 1;
      n := e.count;
      InFront(e);
      assert View() == [Entry(id, 1)] + view;
    }

    /** Put a counter in front of the list. */
    method InFront(e: Counter)
      requires Valid() && e !in items
      modifies this
      ensures Valid() && items == [e] + old(items)
    {
      hide Linked;
      var node := new Node(e);
      Push(node, head, spine);
      head, spine, items := node, [node] + spine, [e] + items;
    }

    /** usage_dec */
    method Decrement(id: string) returns (n: nat)
      requires Valid()
      modifies this, items
      ensures Valid() && items == old(items)
      ensures View() == Dec(old(View()), id) && n == CountOf(View(), id)
    {
      hide PlaceOf, CountOf, Linked, Items;
      ghost var view := View();
      var e, k := Search(id);
      CountAtPlace(view, id);
      DecCounts(view, id, id);
      if e == null {
        return 0;
      }
      if e.count > 0 {
        e.count := e.count - 1;
        assert View() == view[k := Entry(id, view[k].count - 1)];
      } else {
        assert View() == view;
      }
      n := e.count;
    }
  }

  // --- configuration of an instance ---

  datatype Commands = Commands(start: seq<string>, stop: seq<string>, ban: seq<string>, unban: seq<string>,
                               check: seq<string>)

  /** The values given to a key, in file order. */
  function ValuesOf(lines: seq<(string, string)>, key: string): seq<string> {
    if lines == [] then []
    else
      var init, last := lines[..|lines| - 1], lines[|lines| - 1];
      ValuesOf(init, key) + if last.0 == key then [last.1] else []
  }

  lemma ValuesMore(lines: seq<(string, string)>, line: (string, string), key: string)
    ensures ValuesOf(lines + [line], key) == ValuesOf(lines, key) + if line.0 == key then [line.1] else []
  {
    assert (lines + [line])[..|lines|] == lines;
  }

  /** The values of a key stay in file order. */
  lemma {:induction false} ValuesInOrder(a: seq<(string, string)>, b: seq<(string, string)>, key: string)
    ensures ValuesOf(a + b, key) == ValuesOf(a, key) + ValuesOf(b, key)
  {
    if b == [] {
      assert a + b == a;
    } else {
      assert (a + b)[..|a + b| - 1] == a + b[..|b| - 1];
      ValuesInOrder(a, b[..|b| - 1], key);
    }
  }

  /** The commands of each hook are all the values given to its key, in file order. */
  ghost predicate InOrder(c: Commands, lines: seq<(string, string)>) {
    && c.start == ValuesOf(lines, "start") && c.stop == ValuesOf(lines, "stop")
    && c.ban == ValuesOf(lines, "ban") && c.unban == ValuesOf(lines, "unban")
    && c.check == ValuesOf(lines, "check")
  }

  /** One configured backend; its hooks only leave a trace here. */
  class Exec {
    const name: string
    var shared: bool
    var commands: Commands

    function View(): Instance
      reads this
    {
      Instance(name, shared, commands.start != [], commands.stop != [])
    }

    constructor (name: string)
      ensures this.name == name[..if |name| <= ID_MAX then |name| else ID_MAX]
      ensures !shared && InOrder(commands, [])
    {
      this.name := name[..if |name| <= ID_MAX then |name| else ID_MAX];
      shared, commands := false, Commands([], [], [], [], []);
    }

    /** config: timeouts are accepted without effect on what hooks run; unknown keys are refused. */
    method Configure(key: string, value: string, ghost lines: seq<(string, string)>) returns (ok: bool)
      requires InOrder(commands, lines)
      modifies this
      ensures InOrder(commands, lines + [(key, value)])
      ensures shared == if key == "shared" then value == "yes" else old(shared)
      ensures ok <==> key == "timeout" || key == "shared" || key == "start" || key == "stop" || key == "ban"
                      || key == "unban" || key == "check"
    {
      hide ValuesOf;
      forall k ensures ValuesOf(lines + [(key, value)], k) == ValuesOf(lines, k) + if key == k then [value] else [] {
        ValuesMore(lines, (key, value), k);
      }
      ok := true;
      if key == "timeout" {
        return;
      }
      if key == "shared" {
        shared := value == "yes";
        return;
      }
      if key == "start" {
        commands := commands.(start := commands.start + [value]);
      } else if key == "stop" {
        commands := commands.(stop := commands.stop + [value]);
      } else if key == "ban" {
        commands := commands.(ban := commands.ban + [value]);
      } else if key == "unban" {
        commands := commands.(unban := commands.unban + [value]);
      } else if key == "check" {
        commands := commands.(check := commands.check + [value]);
      } else {
        ok := false;
      }
    }

    /** start */
    method DoStart(usage: Registry, ran: seq<Run>) returns (ran': seq<Run>)
      requires usage.Valid() && |name| <= ID_MAX
      modifies usage, usage.items
      ensures usage.Valid() && View() == old(View())
      ensures World(usage.View(), ran') == OnStart(World(old(usage.View()), ran), View())
    {
      hide CountOf, Inc;
      ran' := ran;
      if commands.start == [] {
        return;
      }
      if shared {
        var n := usage.Increment(name);
        if n > 1 {
          return;
        }
      }
      ran' := ran + [Run(name, shared, Start)];
    }

    /** stop */
    method DoStop(usage: Registry, ran: seq<Run>) returns (ran': seq<Run>)
      requires usage.Valid()
      modifies usage, usage.items
      ensures usage.Valid() && View() == old(View())
      ensures World(usage.View(), ran') == OnStop(World(old(usage.View()), ran), View())
    {
      hide CountOf, Dec;
      ran' := ran;
      if commands.stop == [] {
        return;
      }
      if shared {
        var n := usage.Decrement(name);
        if n > 0 {
          return;
        }
      }
      ran' := ran + [Run(name, shared, Stop)];
    }
  }
}
