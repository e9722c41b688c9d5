/** The configuration file (config.c): lines, sections and parameters, and what a load makes of them. */
module Configs {
  import opened Text

  const LINE_MAX := 255
  const KEY_MAX := 31
  const VALUE_MAX := 191

  datatype SectionType = Main | Csocket | Defaults | Source | Filter | Backend | Jail

  datatype Param = Param(name: string, value: string)

  datatype Section = Section(name: string, params: seq<Param>)

  /** A section by its type and name. */
  datatype SectionId = SectionId(kind: SectionType, name: string)

  /** What one line of the file is. */
  datatype Line = Nothing | Header(id: Option<SectionId>) | Pair(param: Option<Param>)

  // --- parameters and sections ---

  function FindParam(ps: seq<Param>, name: string): (k: nat)
    ensures k <= |ps|
  {
    if ps == [] || ps[0].name == name then 0 else 1 + FindParam(ps[1..], name)
  }

  function AddParam(ps: seq<Param>, p: Param, replace: bool): seq<Param> {
    var k := FindParam(ps, p.name);
    if replace && k < |ps| then ps[k := Param(ps[k].name, p.value)] else ps + [p]
  }

  function FindSection(ss: seq<Section>, name: string): (k: nat)
    ensures k <= |ss|
  {
    if ss == [] || ss[0].name == name then 0 else 1 + FindSection(ss[1..], name)
  }

  function AddSection(ss: seq<Section>, name: string): seq<Section> {
    if FindSection(ss, name) < |ss| then ss else [Section(name, [])] + ss
  }

  /** The sections of each type, the latest first. */
  type Store = map<SectionType, seq<Section>>

  function Of(store: Store, t: SectionType): seq<Section> {
    if t in store then store[t] else []
  }

  /** In these sections a repeated key takes the place of the earlier one. */
  predicate Merges(t: SectionType) { t == Main || t == Defaults }

  datatype Loading = Loading(store: Store, current: Option<SectionId>)

  const EMPTY := Loading(map[], None)

  function OnHeader(l: Loading, id: SectionId): Loading {
    Loading(l.store[id.kind := AddSection(Of(l.store, id.kind), id.name)], Some(id))
  }

  function OnPair(l: Loading, id: SectionId, p: Param): Loading {
    var ss := Of(l.store, id.kind);
    var k := FindSection(ss, id.name);
    if k < |ss| then
      l.(store := l.store[id.kind := ss[k := Section(ss[k].name, AddParam(ss[k].params, p, Merges(id.kind)))]])
    else l
  }

  function OnLine(l: Loading, line: Line): Loading {
    match line
    case Nothing => l
    case Header(None) => l.(current := None)
    case Header(Some(id)) => OnHeader(l, id)
    case Pair(p) => if l.current.Some? && p.Some? then OnPair(l, l.current.value, p.value) else l
  }

  /** The line loop of f2b_config_load. */
  function Load(lines: seq<Line>): Loading {
    if lines == [] then EMPTY else OnLine(Load(lines[..|lines| - 1]), lines[|lines| - 1])
  }

  // --- the file read directly: which section each line belongs to, and what it assigns there ---

  function Current(lines: seq<Line>): Option<SectionId> {
    if lines == [] then None
    else
      var last := lines[|lines| - 1];
      if last.Header? then last.id else Current(lines[..|lines| - 1])
  }

  /** The assignments of one section, in file order. */
  function Assigned(lines: seq<Line>, id: SectionId): seq<Param> {
    if lines == [] then []
    else
      var init, last := lines[..|lines| - 1], lines[|lines| - 1];
      Assigned(init, id) +
      if last.Pair? && last.param.Some? && Current(init) == Some(id) then [last.param.value] else []
  }

  ghost predicate Mentioned(lines: seq<Line>, id: SectionId) {
    Header(Some(id)) in lines
  }

  // --- what a load holds ---

  ghost predicate UniqueNames(ss: seq<Section>) {
    forall i, j :: 0 <= i < j < |ss| ==> ss[i].name != ss[j].name
  }

  /** The assignments of a section after merging: each key once, in the order of first appearance. */
  function Merged(ps: seq<Param>): seq<Param> {
    if ps == [] then [] else AddParam(Merged(ps[..|ps| - 1]), ps[|ps| - 1], true)
  }

  function Kept(t: SectionType, ps: seq<Param>): seq<Param> {
    if Merges(t) then Merged(ps) else ps
  }

  lemma {:induction false} SectionFound(ss: seq<Section>, name: string)
    ensures var k := FindSection(ss, name);
            && (k < |ss| ==> ss[k].name == name)
            && forall i :: 0 <= i < k ==> ss[i].name != name
  {
    if ss != [] && ss[0].name != name { SectionFound(ss[1..], name); }
  }

  /** The list of one type holds a section for each name mentioned, with all its assignments. */
  ghost predicate Faithful(lines: seq<Line>, t: SectionType, ss: seq<Section>) {
    && UniqueNames(ss)
    && (forall s :: s in ss ==> s.params == Kept(t, Assigned(lines, SectionId(t, s.name))))
    && (forall name :: Mentioned(lines, SectionId(t, name)) <==> exists s :: s in ss && s.name == name)
  }

  lemma {:induction false} CurrentIsMentioned(lines: seq<Line>)
    ensures Current(lines).Some? ==> Mentioned(lines, Current(lines).value)
  {
    if lines != [] { CurrentIsMentioned(lines[..|lines| - 1]); }
  }

  /** Line k is the last header, and names the section. */
  ghost predicate LastHeader(lines: seq<Line>, id: SectionId, k: nat) {
    k < |lines| && lines[k] == Header(Some(id)) && forall i :: k < i < |lines| ==> !lines[i].Header?
  }

  lemma LastHeaderStays(lines: seq<Line>, line: Line, id: SectionId, k: nat)
    requires k < |lines|
    ensures LastHeader(lines + [line], id, k) <==> !line.Header? && LastHeader(lines, id, k)
  {
    var more := lines + [line];
    assert more[|lines|] == line;
    assert forall i :: 0 <= i < |lines| ==> more[i] == lines[i];
  }

  /** The section in force behind some lines is that of their last header, if that names one. */
  lemma {:induction false} CurrentExactly(lines: seq<Line>, id: SectionId)
    ensures Current(lines) == Some(id) <==> exists k :: LastHeader(lines, id, k)
  {
    if lines != [] {
      var init, last := lines[..|lines| - 1], lines[|lines| - 1];
      CurrentExactly(init, id);
      assert lines == init + [last];
      forall k: nat | k < |init| ensures LastHeader(lines, id, k) <==> !last.Header? && LastHeader(init, id, k) {
        LastHeaderStays(init, last, id, k);
      }
      assert LastHeader(lines, id, |init|) <==> last == Header(Some(id));
      if k: nat :| LastHeader(init, id, k) { assert !last.Header? ==> LastHeader(lines, id, k); }
      if k: nat :| LastHeader(lines, id, k) { assert k < |init| || k == |init|; }
    }
  }

  lemma {:induction false} NotMentioned(lines: seq<Line>, id: SectionId)
    requires !Mentioned(lines, id)
    ensures Assigned(lines, id) == []
  {
    if lines != [] {
      NotMentioned(lines[..|lines| - 1], id);
      CurrentIsMentioned(lines[..|lines| - 1]);
    }
  }

  lemma OneMore(lines: seq<Line>, line: Line, id: SectionId)
    ensures Assigned(lines + [line], id)
         == if line.Pair? && line.param.Some? && Current(lines) == Some(id)
            then Assigned(lines, id) + [line.param.value] else Assigned(lines, id)
    ensures Current(lines + [line]) == if line.Header? then line.id else Current(lines)
    ensures Mentioned(lines + [line], id) <==> Mentioned(lines, id) || line == Header(Some(id))
    ensures Load(lines + [line]) == OnLine(Load(lines), line)
  {
    assert (lines + [line])[..|lines|] == lines;
  }

  lemma KeptMore(t: SectionType, ps: seq<Param>, p: Param)
    ensures Kept(t, ps + [p]) == AddParam(Kept(t, ps), p, Merges(t))
  {
    assert (ps + [p])[..|ps|] == ps;
  }

  /** A repeated key of a section that merges changes its value where it stands; any other assignment
      goes to the end. */
  lemma ParamPlaced(ps: seq<Param>, p: Param, replace: bool)
    ensures var qs, known := AddParam(ps, p, replace), exists q :: q in ps && q.name == p.name;
            if replace && known
            then |qs| == |ps| && exists k ::
                   && 0 <= k < |ps| && ps[k].name == p.name && (forall i :: 0 <= i < k ==> ps[i].name != p.name)
                   && qs == ps[k := Param(p.name, p.value)]
            else qs == ps + [p]
  {
    hide FindParam;
    ParamFound(ps, p.name);
    var k := FindParam(ps, p.name);
    if k < |ps| { assert ps[k] in ps; }
  }

  /** A section named for the first time goes in front of the others of its type. */
  lemma SectionPlaced(l: Loading, id: SectionId)
    ensures var ss, ss' := Of(l.store, id.kind), Of(OnHeader(l, id).store, id.kind);
            if exists s :: s in ss && s.name == id.name then ss' == ss else ss' == [Section(id.name, [])] + ss
  {
    var ss := Of(l.store, id.kind);
    SectionFound(ss, id.name);
    hide FindSection;
    if FindSection(ss, id.name) < |ss| { assert ss[FindSection(ss, id.name)] in ss; }
  }

  /** A section header: its section is there afterwards, with what was assigned to it before. */
  lemma HeaderFaithful(lines: seq<Line>, id: SectionId, ss: seq<Section>)
    requires Faithful(lines, id.kind, ss)
    ensures Faithful(lines + [Header(Some(id))], id.kind, AddSection(ss, id.name))
  {
    hide Assigned, Current, FindSection;
    var t := id.kind;
    var line := Header(Some(id));
    forall name ensures Assigned(lines + [line], SectionId(t, name)) == Assigned(lines, SectionId(t, name)) {
      OneMore(lines, line, SectionId(t, name));
    }
    forall name
      ensures Mentioned(lines + [line], SectionId(t, name)) <==> Mentioned(lines, SectionId(t, name)) || name == id.name
    {
      OneMore(lines, line, SectionId(t, name));
    }
    SectionFound(ss, id.name);
    var k := FindSection(ss, id.name);
    if k < |ss| {
      assert ss[k] in ss;
    } else {
      NotMentioned(lines, id);
      assert ([Section(id.name, [])] + ss)[0] == Section(id.name, []);
    }
  }

  /** An assignment: it goes to the current section and to no other. */
  lemma PairFaithful(lines: seq<Line>, id: SectionId, p: Param, ss: seq<Section>)
    requires Faithful(lines, id.kind, ss) && Current(lines) == Some(id)
    ensures var k := FindSection(ss, id.name);
            && k < |ss|
            && Faithful(lines + [Pair(Some(p))], id.kind,
                        ss[k := Section(ss[k].name, AddParam(ss[k].params, p, Merges(id.kind)))])
  {
    hide Assigned, Current, FindSection, AddParam, Kept;
    var t := id.kind;
    var line := Pair(Some(p));
    CurrentIsMentioned(lines);
    SectionFound(ss, id.name);
    var k := FindSection(ss, id.name);
    var s :| s in ss && s.name == id.name;
    var ss' := ss[k := Section(ss[k].name, AddParam(ss[k].params, p, Merges(t)))];
    KeptMore(t, Assigned(lines, id), p);
    forall i | 0 <= i < |ss'| ensures ss'[i].params == Kept(t, Assigned(lines + [line], SectionId(t, ss'[i].name))) {
      OneMore(lines, line, SectionId(t, ss'[i].name));
      assert ss[i] in ss && SectionId(t, id.name) == id;
      assert i != k ==> ss[i].name != ss[k].name;
    }
    forall name
      ensures Mentioned(lines + [line], SectionId(t, name)) <==> exists s :: s in ss' && s.name == name
    {
      OneMore(lines, line, SectionId(t, name));
      SameNames(ss, ss', name);
    }
  }

  lemma SameNames(ss: seq<Section>, ss': seq<Section>, name: string)
    requires |ss| == |ss'| && forall i :: 0 <= i < |ss| ==> ss[i].name == ss'[i].name
    ensures (exists s :: s in ss && s.name == name) <==> (exists s :: s in ss' && s.name == name)
  {
    if s :| s in ss && s.name == name {
      var i :| 0 <= i < |ss| && ss[i] == s;
      assert ss'[i] in ss';
    }
    if s :| s in ss' && s.name == name {
      var i :| 0 <= i < |ss'| && ss'[i] == s;
      assert ss[i] in ss;
    }
  }

  /** A line that says nothing about the sections of a type leaves them as they were. */
  lemma OtherFaithful(lines: seq<Line>, line: Line, t: SectionType, ss: seq<Section>)
    requires Faithful(lines, t, ss)
    requires line.Header? && line.id.Some? ==> line.id.value.kind != t
    requires line.Pair? && line.param.Some? && Current(lines).Some? ==> Current(lines).value.kind != t
    ensures Faithful(lines + [line], t, ss)
  {
    hide Assigned, Current, Kept;
    forall name
      ensures Assigned(lines + [line], SectionId(t, name)) == Assigned(lines, SectionId(t, name))
      ensures Mentioned(lines + [line], SectionId(t, name)) <==> Mentioned(lines, SectionId(t, name))
    {
      OneMore(lines, line, SectionId(t, name));
    }
  }

  /** A load keeps one section per type and name, with every assignment of the file: in file order, or
      merged where repeated keys replace. */
  lemma {:induction false} LoadIsFaithful(lines: seq<Line>, t: SectionType)
    ensures Faithful(lines, t, Of(Load(lines).store, t)) && Load(lines).current == Current(lines)
  {
    if lines != [] {
      var init, line := lines[..|lines| - 1], lines[|lines| - 1];
      assert lines == init + [line];
      LoadIsFaithful(init, t);
      OneMore(init, line, SectionId(t, ""));
      StepIsFaithful(init, line, t, Load(init));
    }
  }

  lemma StepIsFaithful(lines: seq<Line>, line: Line, t: SectionType, l: Loading)
    requires Faithful(lines, t, Of(l.store, t)) && l.current == Current(lines)
    ensures Faithful(lines + [line], t, Of(OnLine(l, line).store, t))
    ensures OnLine(l, line).current == Current(lines + [line])
  {
    hide Faithful, Current, AddSection, AddParam, FindSection;
    var ss := Of(l.store, t);
    OneMore(lines, line, SectionId(t, ""));
    if line.Header? && line.id.Some? && line.id.value.kind == t {
      HeaderFaithful(lines, line.id.value, ss);
    } else if line.Pair? && line.param.Some? && l.current.Some? && l.current.value.kind == t {
      PairFaithful(lines, l.current.value, line.param.value, ss);
    } else {
      OtherFaithful(lines, line, t, ss);
    }
  }

  // --- merged assignments ---

  /** The last value assigned to a key. */
  function LastValue(ps: seq<Param>, name: string): Option<string> {
    if ps == [] then None
    else if ps[|ps| - 1].name == name then Some(ps[|ps| - 1].value)
    else LastValue(ps[..|ps| - 1], name)
  }

  ghost predicate UniqueKeys(ps: seq<Param>) {
    forall i, j :: 0 <= i < j < |ps| ==> ps[i].name != ps[j].name
  }

  lemma {:induction false} ParamFound(ps: seq<Param>, name: string)
    ensures var k := FindParam(ps, name);
            && (k < |ps| ==> ps[k].name == name)
            && forall i :: 0 <= i < k ==> ps[i].name != name
  {
    if ps != [] && ps[0].name != name { ParamFound(ps[1..], name); }
  }

  /** The value that a search for a key finds. */
  function ValueOf(ps: seq<Param>, name: string): Option<string> {
    var k := FindParam(ps, name);
    if k < |ps| then Some(ps[k].value) else None
  }

  lemma {:induction false} FoundAt(ps: seq<Param>, name: string, k: nat)
    requires k <= |ps| && (k < |ps| ==> ps[k].name == name) && forall i :: 0 <= i < k ==> ps[i].name != name
    ensures FindParam(ps, name) == k
  {
    if k > 0 { FoundAt(ps[1..], name, k - 1); }
  }

  lemma AddParamMerges(ps: seq<Param>, p: Param, name: string)
    requires UniqueKeys(ps)
    ensures UniqueKeys(AddParam(ps, p, true))
    ensures ValueOf(AddParam(ps, p, true), name) == if name == p.name then Some(p.value) else ValueOf(ps, name)
  {
    hide FindParam;
    var k, i := FindParam(ps, p.name), FindParam(ps, name);
    var ps' := AddParam(ps, p, true);
    ParamFound(ps, p.name);
    ParamFound(ps, name);
    if name == p.name {
      FoundAt(ps', name, k);
    } else if i < |ps| {
      FoundAt(ps', name, i);
    } else {
      FoundAt(ps', name, |ps'|);
    }
  }

  /** Where repeated keys replace, each key appears once, with its last value. */
  lemma {:induction false} MergedIsLast(ps: seq<Param>, name: string)
    ensures UniqueKeys(Merged(ps)) && ValueOf(Merged(ps), name) == LastValue(ps, name)
  {
    hide AddParam;
    if ps != [] {
      MergedIsLast(ps[..|ps| - 1], name);
      AddParamMerges(Merged(ps[..|ps| - 1]), ps[|ps| - 1], name);
    }
  }
}
