/** f2b_config_load with its linked lists of sections and parameters, updated in place. */
module ConfigLoader {
  import opened Chain
  import opened Text
  import opened Configs
  import opened ConfigText
  import ConfigParser

  class ParamRec {
    const name: string
    var value: string

    constructor (p: Param)
      ensures name == p.name && value == p.value
    {
      name, value := p.name, p.value;
    }
  }

  ghost function Params(items: seq<ParamRec>): seq<Param>
    reads items
  {
    seq(|items|, i requires 0 <= i < |items| reads items => Param(items[i].name, items[i].value))
  }

  class SectionRec {
    const kind: SectionType
    const name: string
    var param: Node?<ParamRec>
    ghost var spine: seq<Node<ParamRec>>
    ghost var items: seq<ParamRec>
    ghost var contents: seq<Param>

    ghost predicate Valid()
      reads this, spine, items
    {
      && Linked(param, spine) && items == Items(spine) && contents == Params(items)
      && forall i, k :: 0 <= i < k < |items| ==> items[i] != items[k]
    }

    ghost function View(): Section
      reads this
    {
      Section(name, contents)
    }

    constructor (kind: SectionType, name: string)
      ensures this.kind == kind && this.name == name && Valid() && spine == [] && contents == []
    {
      this.kind, this.name, param, spine, items, contents := kind, name, null, [], [], [];
    }

    /** f2b_config_param_find */
    method Search(key: string) returns (p: ParamRec?, ghost k: nat)
      requires Valid()
      ensures k == FindParam(contents, key)
      ensures p == if k < |items| then items[k] else null
    {
      hide FindParam;
      var node := param;
      k := 0;
      while node != null && node.item.name != key
        invariant k <= |spine| == |items| && node == if k < |spine| then spine[k] else null
        invariant forall i :: 0 <= i < k ==> items[i].name != key
        decreases |spine| - k
      {
        node := node.next;
        k := k + 1;
      }
      FoundAt(Params(items), key, k);
      p := if node == null then null else node.item;
    }

    /** A new parameter at the end of the list. */
    method AddLast(p: Param) returns (r: ParamRec)
      requires Valid()
      modifies this, set n | n in spine
      ensures Valid() && items == old(items) + [r] && fresh(r)
      ensures (forall n :: n in spine ==> n in old(spine) || fresh(n))
      ensures contents == old(contents) + [p]
    {
      hide Linked;
      r := new ParamRec(p);
      var node := new Node(r);
      param := Chain.Append(node, param, spine);
      spine, items, contents := spine + [node], items + [r], contents + [p];
    }

    /** f2b_config_param_append */
    method Append(p: Param, replace: bool)
      requires Valid()
      modifies this, set n | n in spine, set r | r in items
      ensures Valid() && (forall n :: n in spine ==> n in old(spine) || fresh(n))
      ensures forall r :: r in items ==> r in old(items) || fresh(r)
      ensures View() == Section(name, AddParam(old(View()).params, p, replace))
    {
      hide Linked, FindParam, Items;
      if replace {
        var r, k := Search(p.name);
        if r != null {
          r.value := p.value;
          contents := contents[k := Param(contents[k].name, p.value)];
          return;
        }
      }
      var last := AddLast(p);
      assert forall r :: r in items ==> r in old(items) || r == last;
    }
  }

  /** Two sections share no parameter. */
  ghost predicate Apart(a: SectionRec, b: SectionRec)
    reads a, b
  {
    && (forall n :: n in a.spine ==> n !in b.spine)
    && (forall r :: r in a.items ==> r !in b.items)
  }

  ghost function Sections(recs: seq<SectionRec>): seq<Section>
    reads recs
  {
    seq(|recs|, i requires 0 <= i < |recs| reads recs => recs[i].View())
  }

  /** Sections of one type, each name once. */
  ghost predicate Distinct(t: SectionType, recs: seq<SectionRec>) {
    && (forall r :: r in recs ==> r.kind == t)
    && forall i, j :: 0 <= i < j < |recs| ==> recs[i].name != recs[j].name
  }

  lemma {:induction false} SectionAt(ss: seq<Section>, name: string, k: nat)
    requires k <= |ss| && (k < |ss| ==> ss[k].name == name) && forall i :: 0 <= i < k ==> ss[i].name != name
    ensures FindSection(ss, name) == k
  {
    if k > 0 { SectionAt(ss[1..], name, k - 1); }
  }

  /** f2b_config_section_find */
  method SearchList(head: Node?<SectionRec>, name: string, ghost spine: seq<Node<SectionRec>>)
    returns (s: SectionRec?, ghost k: nat)
    requires Linked(head, spine)
    ensures k == FindSection(Sections(Items(spine)), name)
    ensures k <= |Items(spine)| && s == if k < |Items(spine)| then Items(spine)[k] else null
  {
    hide FindSection;
    var node := head;
    k := 0;
    while node != null && node.item.name != name
      invariant k <= |spine| && node == if k < |spine| then spine[k] else null
      invariant forall i :: 0 <= i < k ==> spine[i].item.name != name
      decreases |spine| - k
    {
      node := node.next;
      k := k + 1;
    }
    SectionAt(Sections(Items(spine)), name, k);
    s := if node == null then null else node.item;
  }

  /** The linked list of the sections of one type, among the given nodes and sections. */
  ghost predicate OneList(t: SectionType, head: Node?<SectionRec>, spine: seq<Node<SectionRec>>, recs: seq<SectionRec>,
                          nodes: set<Node<SectionRec>>, records: set<SectionRec>)
    reads nodes
  {
    && (forall n :: n in spine ==> n in nodes)
    && Linked(head, spine) && recs == Items(spine) && Distinct(t, recs)
    && (forall s :: s in recs ==> s in records)
  }

  lemma OneListMore(t: SectionType, head: Node?<SectionRec>, spine: seq<Node<SectionRec>>, recs: seq<SectionRec>,
                    nodes: set<Node<SectionRec>>, records: set<SectionRec>,
                    nodes': set<Node<SectionRec>>, records': set<SectionRec>)
    requires OneList(t, head, spine, recs, nodes, records) && nodes <= nodes' && records <= records'
    ensures OneList(t, head, spine, recs, nodes', records')
  {}

  lemma NoList(t: SectionType, nodes: set<Node<SectionRec>>, records: set<SectionRec>)
    ensures OneList(t, null, [], [], nodes, records)
  {}

  /** A section in front of the list of its type. */
  method FrontSection(s: SectionRec, head: Node?<SectionRec>, ghost spine: seq<Node<SectionRec>>,
                      ghost recs: seq<SectionRec>, ghost nodes: set<Node<SectionRec>>, ghost records: set<SectionRec>)
    returns (node: Node<SectionRec>)
    requires OneList(s.kind, head, spine, recs, nodes, records) && forall r :: r in recs ==> r.name != s.name
    ensures fresh(node) && OneList(s.kind, node, [node] + spine, [s] + recs, nodes + {node}, records + {s})
  {
    hide Linked, Items;
    node := new Node(s);
    Push(node, head, spine);
    ItemsSingle(node);
    ItemsAppend([node], spine);
  }

  /** The sections are sound, made of the given objects, and share nothing. */
  ghost predicate Owned(records: set<SectionRec>, paramNodes: set<Node<ParamRec>>, params: set<ParamRec>)
    reads records, paramNodes, params
  {
    && (forall s :: s in records ==> forall n :: n in s.spine ==> n in paramNodes)
    && (forall s :: s in records ==> forall r :: r in s.items ==> r in params)
    && (forall s :: s in records ==> s.Valid())
    && (forall s, q :: s in records && q in records && s != q ==> Apart(s, q))
  }

  lemma OwnedFront(s: SectionRec, records: set<SectionRec>, paramNodes: set<Node<ParamRec>>, params: set<ParamRec>)
    requires Owned(records, paramNodes, params) && s.Valid() && s.spine == [] && s.items == []
    ensures Owned(records + {s}, paramNodes, params)
  {}

  /** A parameter of one section leaves the other sections as they were. */
  method AppendAmong(s: SectionRec, p: Param, replace: bool, ghost records: set<SectionRec>,
                     ghost paramNodes: set<Node<ParamRec>>, ghost params: set<ParamRec>)
    returns (ghost nodes': set<Node<ParamRec>>, ghost params': set<ParamRec>)
    requires Owned(records, paramNodes, params) && s in records
    modifies s, paramNodes, params
    ensures Owned(records, nodes', params') && fresh(nodes' - paramNodes) && fresh(params' - params)
    ensures s.View() == Section(s.name, AddParam(old(s.View()).params, p, replace))
    ensures forall q :: q in records && q != s ==> q.View() == old(q.View())
  {
    hide AddParam, Linked, Items, Params;
    s.Append(p, replace);
    nodes', params' := paramNodes + (set n | n in s.spine), params + set r | r in s.items;
    forall q | q in records && q != s
      ensures q.Valid() && q.View() == old(q.View()) && Apart(q, s) && Apart(s, q)
      ensures q.spine == old(q.spine) && q.items == old(q.items)
    {
      assert old(q.Valid()) && old(Apart(q, s)) && old(Apart(s, q));
    }
    forall q, r | q in records && r in records && q != r ensures Apart(q, r) {
      assert old(Apart(q, r));
    }
  }

  ghost predicate Among(recs: map<SectionType, seq<SectionRec>>, records: set<SectionRec>) {
    forall t :: t in recs ==> forall s :: s in recs[t] ==> s in records
  }

  /** The sections of all lists as values. */
  ghost function Stored(recs: map<SectionType, seq<SectionRec>>, records: set<SectionRec>): Store
    requires Among(recs, records)
    reads records
  {
    map t | t in recs :: Sections(recs[t])
  }

  lemma StoredFront(recs: map<SectionType, seq<SectionRec>>, records: set<SectionRec>, t: SectionType, s: SectionRec)
    requires Among(recs, records)
    ensures var items := if t in recs then recs[t] else [];
            var recs' := recs[t := [s] + items];
            && Among(recs', records + {s})
            && Stored(recs', records + {s}) == Stored(recs, records)[t := [s.View()] + Of(Stored(recs, records), t)]
  {
    var items := if t in recs then recs[t] else [];
    assert Sections([s] + items) == [s.View()] + Sections(items);
  }

  class ConfigObj {
    /** The head of the list of each type; a type that is not there has no sections. */
    var lists: map<SectionType, Node?<SectionRec>>
    ghost var recs: map<SectionType, seq<SectionRec>>
    ghost var spines: map<SectionType, seq<Node<SectionRec>>>
    ghost var nodes: set<Node<SectionRec>>
    ghost var records: set<SectionRec>
    ghost var paramNodes: set<Node<ParamRec>>
    ghost var params: set<ParamRec>

    /** Each list is linked, with the sections of its type. */
    ghost predicate Listed()
      reads this, nodes
    {
      && lists.Keys == spines.Keys == recs.Keys
      && forall t :: t in spines ==> OneList(t, lists[t], spines[t], recs[t], nodes, records)
    }

    ghost predicate Valid()
      reads this, nodes, records, paramNodes, params
    {
      Listed() && Owned(records, paramNodes, params)
    }

    ghost function View(): Store
      requires Valid()
      reads this, nodes, records, paramNodes, params
    {
      ListedAmong();
      Stored(recs, records)
    }

    lemma ListedAmong()
      requires Listed()
      ensures Among(recs, records)
    {}

    constructor ()
      ensures Valid() && View() == map[] && nodes == {} && records == {} && paramNodes == {} && params == {}
    {
      lists, recs, spines := map[], map[], map[];
      nodes, records, paramNodes, params := {}, {}, {}, {};
    }

    ghost function RecsOf(t: SectionType): seq<SectionRec>
      reads this
    {
      if t in recs then recs[t] else []
    }

    ghost function SpineOf(t: SectionType): seq<Node<SectionRec>>
      reads this
    {
      if t in spines then spines[t] else []
    }

    function HeadOf(t: SectionType): Node?<SectionRec>
      reads this
    {
      if t in lists then lists[t] else null
    }

    /** Put a section in front of its list. */
    method PushSection(s: SectionRec)
      requires Listed() && forall r :: r in RecsOf(s.kind) ==> r.name != s.name
      modifies this`lists, this`recs, this`spines, this`nodes, this`records
      ensures Listed() && recs == old(recs)[s.kind := [s] + old(RecsOf(s.kind))]
      ensures records == old(records) + {s} && fresh(nodes - old(nodes))
    {
      hide OneList;
      var t := s.kind;
      ghost var ns, rs := nodes, records;
      NoList(t, ns, rs);
      var node := FrontSection(s, HeadOf(t), SpineOf(t), RecsOf(t), ns, rs);
      forall u | u in spines
        ensures OneList(u, lists[u], spines[u], recs[u], ns + {node}, rs + {s})
      {
        OneListMore(u, lists[u], spines[u], recs[u], ns, rs, ns + {node}, rs + {s});
      }
      lists, spines, recs := lists[t := node], spines[t := [node] + SpineOf(t)], recs[t := [s] + RecsOf(t)];
      nodes, records := ns + {node}, rs + {s};
    }

    /** A new section of the name. */
    method AddNew(id: SectionId) returns (s: SectionRec)
      requires Valid() && forall r :: r in RecsOf(id.kind) ==> r.name != id.name
      modifies this
      ensures Valid() && s in RecsOf(id.kind) && s.kind == id.kind && s.name == id.name
      ensures fresh(nodes - old(nodes)) && fresh(records - old(records))
      ensures paramNodes == old(paramNodes) && params == old(params)
      ensures View() == old(View())[id.kind := [Section(id.name, [])] + Of(old(View()), id.kind)]
    {
      hide Linked, OneList, Items, Owned, Stored, Among, Of;
      ghost var before, rs: set<SectionRec>, view := recs, records, View();
      s := new SectionRec(id.kind, id.name);
      ListedAmong();
      assert Stored(before, rs) == view;
      OwnedFront(s, rs, paramNodes, params);
      StoredFront(before, rs, id.kind, s);
      PushSection(s);
      assert Owned(records, paramNodes, params);
    }

    /** f2b_config_section_append: an older section of the name, or a new one in front. */
    method Enter(id: SectionId) returns (s: SectionRec)
      requires Valid()
      modifies this
      ensures Valid() && s in RecsOf(id.kind) && s.kind == id.kind && s.name == id.name
      ensures fresh(nodes - old(nodes)) && fresh(records - old(records))
      ensures paramNodes == old(paramNodes) && params == old(params)
      ensures View() == old(View())[id.kind := AddSection(Of(old(View()), id.kind), id.name)]
    {
      hide Linked, Owned, FindSection, Items, Stored;
      ghost var items: seq<SectionRec> := RecsOf(id.kind);
      NothingLinked<SectionRec>();
      ItemsEmpty<SectionRec>();
      ListedAmong();
      StoredAt(recs, records, id.kind);
      var found, k := SearchList(HeadOf(id.kind), id.name, SpineOf(id.kind));
      SectionFound(Sections(items), id.name);
      if found != null {
        s := found;
        assert items[k] == s && s in items && items[k].name == Sections(items)[k].name;
      } else {
        NotNamed(items, id.name);
        s := AddNew(id);
      }
    }

    /** A parameter line inside a section. */
    method Assign(s: SectionRec, p: Param)
      requires Valid() && s in RecsOf(s.kind)
      modifies s, paramNodes, params, this`paramNodes, this`params
      ensures Valid() && recs == old(recs)
      ensures fresh(paramNodes - old(paramNodes)) && fresh(params - old(params))
      ensures Loading(View(), Some(SectionId(s.kind, s.name)))
           == OnPair(Loading(old(View()), Some(SectionId(s.kind, s.name))), SectionId(s.kind, s.name), p)
    {
      hide Linked, Owned, FindSection, Items, Stored, AddParam, OneList, Distinct;
      ListedAmong();
      ListedDistinct();
      StoredAt(recs, records, s.kind);
      ghost var k := PlaceIn(recs, records, s);
      paramNodes, params := AppendStored(s, p, k, recs, records, paramNodes, params);
    }

    /** The section is one of the lists'; null stands for no section. */
    ghost predicate Has(s: SectionRec?)
      reads this
    {
      s != null ==> s in RecsOf(s.kind)
    }

    /** One line: the section it belongs to afterwards, null while parameters are skipped. */
    method HandleLine(raw: string, section: SectionRec?) returns (current: SectionRec?)
      requires Valid() && Has(section)
      modifies this, records, paramNodes, params
      ensures Valid() && Has(current)
      ensures fresh(nodes - old(nodes)) && fresh(records - old(records))
      ensures fresh(paramNodes - old(paramNodes)) && fresh(params - old(params))
      ensures Loading(View(), IdOf(current)) == OnLine(Loading(old(View()), IdOf(section)), ReadLine(raw))
    {
      hide AddSection, ParseHeader, ParseParam, CutAt, SkipBlanks, CString, OnPair, Listed, Owned, View, Stored;
      var p := SkipBlanks(CutAt(CutAt(CString(raw), '\r'), '\n'));
      current := section;
      if p == "" || p[0] == ';' || p[0] == '#' {
        return;
      }
      if p[0] == '[' {
        var id := ParseHeader(p[1..]);
        match id
        case None => current := null;
        case Some(v) => current := Enter(v);
      } else if section != null {
        var param := ConfigParser.CreateParam(p);
        if param.Some? {
          Member(section);
          Assign(section, param.value);
        }
      }
    }

    lemma Member(s: SectionRec)
      requires Listed() && s in RecsOf(s.kind)
      ensures s in records
    {}

    lemma ListedDistinct()
      requires Listed()
      ensures forall t :: t in recs ==> Distinct(t, recs[t])
    {}
  }

  /** A parameter of one section changes the value of that section and no other. */
  method AppendStored(s: SectionRec, p: Param, ghost k: nat, ghost recs: map<SectionType, seq<SectionRec>>,
                      ghost records: set<SectionRec>, ghost paramNodes: set<Node<ParamRec>>, ghost params: set<ParamRec>)
    returns (ghost nodes': set<Node<ParamRec>>, ghost params': set<ParamRec>)
    requires Owned(records, paramNodes, params) && Among(recs, records) && s in records && s.kind in recs
    requires forall t :: t in recs ==> Distinct(t, recs[t])
    requires k < |recs[s.kind]| && recs[s.kind][k] == s
    requires forall i :: 0 <= i < |recs[s.kind]| && i != k ==> recs[s.kind][i] != s
    modifies s, paramNodes, params
    ensures Owned(records, nodes', params') && fresh(nodes' - paramNodes) && fresh(params' - params)
    ensures var ss := Of(old(Stored(recs, records)), s.kind);
            && k < |ss|
            && Stored(recs, records) == old(Stored(recs, records))[
                 s.kind := ss[k := Section(ss[k].name, AddParam(ss[k].params, p, Merges(s.kind)))]]
  {
    hide Owned, AddParam;
    ghost var store := Stored(recs, records);
    nodes', params' := AppendAmong(s, p, Merges(s.kind), records, paramNodes, params);
    forall u | u in recs && u != s.kind ensures Sections(recs[u]) == store[u] {
      assert forall r :: r in recs[u] ==> r != s && r in records;
    }
    assert forall r :: r in recs[s.kind] ==> r in records;
    assert Sections(recs[s.kind]) == store[s.kind][k := s.View()];
  }

  lemma StoredAt(recs: map<SectionType, seq<SectionRec>>, records: set<SectionRec>, t: SectionType)
    requires Among(recs, records)
    ensures Of(Stored(recs, records), t) == Sections(if t in recs then recs[t] else [])
    ensures t in recs ==> t in Stored(recs, records)
  {}

  lemma NotNamed(items: seq<SectionRec>, name: string)
    requires FindSection(Sections(items), name) == |items|
    ensures forall r :: r in items ==> r.name != name
  {
    SectionFound(Sections(items), name);
    hide FindSection;
    forall r | r in items ensures r.name != name {
      var i :| 0 <= i < |items| && items[i] == r;
      assert Sections(items)[i].name == r.name;
    }
  }

  /** Where a section stands in its list; it is the only one of its name. */
  lemma PlaceIn(recs: map<SectionType, seq<SectionRec>>, records: set<SectionRec>, s: SectionRec) returns (k: nat)
    requires Among(recs, records) && s.kind in recs && s in recs[s.kind] && Distinct(s.kind, recs[s.kind])
    ensures k < |recs[s.kind]| && recs[s.kind][k] == s && FindSection(Of(Stored(recs, records), s.kind), s.name) == k
    ensures forall i :: 0 <= i < |recs[s.kind]| && i != k ==> recs[s.kind][i] != s
  {
    hide FindSection;
    var items := recs[s.kind];
    k :| 0 <= k < |items| && items[k] == s;
    SectionAt(Sections(items), s.name, k);
  }

  function IdOf(s: SectionRec?): Option<SectionId> {
    if s == null then None else Some(SectionId(s.kind, s.name))
  }

  /** The line loop of f2b_config_load, of one file into an empty configuration. */
  method LoadFile(content: string) returns (config: ConfigObj)
    ensures fresh(config) && config.Valid() && config.View() == Load(ReadLines(content)).store
  {
    hide OnLine, ReadLine, LineLength, ConfigObj.Listed, ConfigObj.View, Owned, ConfigObj.Has;
    config := new ConfigObj();
    var section: SectionRec? := null;
    NoSection(config);
    var rest := content;
    ghost var done: seq<Line> := [];
    while rest != ""
      invariant fresh(config) && fresh(config.records) && fresh(config.paramNodes) && fresh(config.params)
      invariant config.Valid() && config.Has(section)
      invariant Loading(config.View(), IdOf(section)) == Load(done)
      invariant ReadLines(content) == done + ReadLines(rest)
      decreases |rest|
    {
      var n := LineLength(rest, LINE_MAX);
      section := config.HandleLine(rest[..n], section);
      ghost var line := ReadLine(rest[..n]);
      OneMore(done, line, SectionId(Main, ""));
      assert done + ([line] + ReadLines(rest[n..])) == done + [line] + ReadLines(rest[n..]);
      done := done + [line];
      rest := rest[n..];
    }
    assert done + [] == done;
  }

  lemma NoSection(config: ConfigObj)
    ensures config.Has(null)
  {}

  lemma NothingLinked<T>()
    ensures Linked<T>(null, []) && Items<T>([]) == []
  {}
}
