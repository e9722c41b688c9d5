/** Which source, filter and backend a jail uses, and with what init string (jail.c). */
module JailModules {
  import opened Text
  import opened Configs

  const INIT_MAX := 191

  datatype Module = Module(name: string, init: string)

  datatype Modules = Modules(source: Module, filter: Module, backend: Module)

  const NONE := Modules(Module("", ""), Module("", ""), Module("", ""))

  function Front(s: string, n: nat): string { s[..Min(|s|, n)] }

  /** The name that a value "name" or "name:init" gives; a longer name than fits gives none. */
  function NamePart(value: string): Option<string> {
    match Find(value, ':')
    case None => Some(Front(value, KEY_MAX))
    case Some(k) => if k > KEY_MAX then None else Some(value[..k])
  }

  /** The init string that a value gives, if any. */
  function InitPart(value: string): Option<string> {
    match Find(value, ':')
    case None => None
    case Some(k) => if k > KEY_MAX then None else Some(Front(value[k + 1..], INIT_MAX))
  }

  function Or(r: Option<string>, s: string): string {
    match r
    case None => s
    case Some(t) => t
  }

  /** f2b_jail_parse_compound_value: what the value does not give stays. */
  function Compound(m: Module, value: string): Module {
    Module(Or(NamePart(value), m.name), Or(InitPart(value), m.init))
  }

  /** A name and an init string put together come apart again, the init string cut to 191 characters; a
      name of more than 31 characters changes nothing. */
  lemma CompoundReadBack(m: Module, name: string, init: string)
    requires NulFree(name) && ':' !in name
    ensures Compound(m, name + ":" + init)
         == if |name| > 31 then m else Module(name, if |init| <= 191 then init else init[..191])
  {
    var value := name + ":" + init;
    assert forall i :: 0 <= i < |name| ==> value[i] == name[i] && name[i] in name;
    FindFrom(value, ':', |name|);
    assert value[|name|..] == ":" + init && value[..|name|] == name && value[|name| + 1..] == init;
  }

  /** A value without a colon gives a name, cut to 31 characters, and leaves the init string. */
  lemma NameAlone(m: Module, value: string)
    requires NulFree(value) && ':' !in value
    ensures Compound(m, value) == Module(if |value| <= 31 then value else value[..31], m.init)
  {}

  datatype Kind = SourceModule | FilterModule | BackendModule

  function KeyOf(kind: Kind): string {
    match kind
    case SourceModule => "source"
    case FilterModule => "filter"
    case BackendModule => "backend"
  }

  function Get(ms: Modules, kind: Kind): Module {
    match kind
    case SourceModule => ms.source
    case FilterModule => ms.filter
    case BackendModule => ms.backend
  }

  function ApplyModule(ms: Modules, p: Param): Modules {
    if p.name == "source" then ms.(source := Compound(ms.source, p.value))
    else if p.name == "filter" then ms.(filter := Compound(ms.filter, p.value))
    else if p.name == "backend" then ms.(backend := Compound(ms.backend, p.value))
    else ms
  }

  /** Each of three names sets its own module, and any other name none. */
  lemma ModuleNames(ms: Modules, p: Param)
    ensures p.name == "source" ==> ApplyModule(ms, p) == ms.(source := Compound(ms.source, p.value))
    ensures p.name == "filter" ==> ApplyModule(ms, p) == ms.(filter := Compound(ms.filter, p.value))
    ensures p.name == "backend" ==> ApplyModule(ms, p) == ms.(backend := Compound(ms.backend, p.value))
    ensures p.name != "source" && p.name != "filter" && p.name != "backend" ==> ApplyModule(ms, p) == ms
  {
    hide Compound;
  }

  /** The part of f2b_jail_apply_config that names the modules. */
  function ApplyModules(ms: Modules, ps: seq<Param>): Modules {
    if ps == [] then ms else ApplyModule(ApplyModules(ms, ps[..|ps| - 1]), ps[|ps| - 1])
  }

  /** The last name given to a module. */
  function LastName(ps: seq<Param>, key: string): Option<string> {
    if ps == [] then None
    else
      var p := ps[|ps| - 1];
      if p.name == key && NamePart(p.value).Some? then NamePart(p.value) else LastName(ps[..|ps| - 1], key)
  }

  /** The last init string given to a module. */
  function LastInit(ps: seq<Param>, key: string): Option<string> {
    if ps == [] then None
    else
      var p := ps[|ps| - 1];
      if p.name == key && InitPart(p.value).Some? then InitPart(p.value) else LastInit(ps[..|ps| - 1], key)
  }

  lemma ApplyOne(ms: Modules, p: Param, kind: Kind)
    ensures Get(ApplyModule(ms, p), kind) == if p.name == KeyOf(kind) then Compound(Get(ms, kind), p.value) else Get(ms, kind)
  {
    hide Compound;
  }

  /** Name and init string are decided apart: each is the last one given. A later value without a colon
      changes the name and leaves the init string of an earlier one. */
  lemma {:induction false} ModuleDecided(ms: Modules, ps: seq<Param>, kind: Kind)
    ensures Get(ApplyModules(ms, ps), kind)
         == Module(Or(LastName(ps, KeyOf(kind)), Get(ms, kind).name), Or(LastInit(ps, KeyOf(kind)), Get(ms, kind).init))
  {
    hide KeyOf, Get, NamePart, InitPart, ApplyModule;
    if ps != [] {
      var init, last := ps[..|ps| - 1], ps[|ps| - 1];
      ModuleDecided(ms, init, kind);
      ApplyOne(ApplyModules(ms, init), last, kind);
    }
  }
}
