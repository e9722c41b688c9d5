/** How the settings of a jail come from the configuration file (jail.c, config.c). */
module JailConfig {
  import opened Configs
  import opened Settings
  import opened Text
  import J = Jail

  /** atof: the number that a value spells. */
  type Atof = string -> real

  /** One parameter of a [defaults] or [jail:*] section. */
  function ApplyParam(c: J.Config, p: Param, atof: Atof): J.Config {
    if p.name == "state" then c.(hasState := true)
    else if p.name == "source" then c.(hasSource := true)
    else if p.name == "filter" then c.(hasFilter := true)
    else if p.name == "backend" then c.(hasBackend := true)
    else SetParam(c, ParameterOf(p.name), p.value, atof(p.value))
  }

  /** f2b_jail_apply_config */
  function Apply(c: J.Config, ps: seq<Param>, atof: Atof): J.Config {
    if ps == [] then c else ApplyParam(Apply(c, ps[..|ps| - 1], atof), ps[|ps| - 1], atof)
  }

  predicate Settable(p: Parameter) { !p.Deprecated? && !p.Unknown? }

  function NameOf(p: Parameter): string
    requires Settable(p)
  {
    match p
    case Enabled => "enabled"
    case Bantime => "bantime"
    case Findtime => "findtime"
    case Expiretime => "expiretime"
    case Banscore => "banscore"
    case BantimeExtend => "bantime_extend"
    case FindtimeExtend => "findtime_extend"
    case ExpiretimeExtend => "expiretime_extend"
  }

  /** Two configurations with the same value of one setting. */
  predicate Agree(p: Parameter, c: J.Config, d: J.Config) {
    match p
    case Enabled => c.enabled == d.enabled
    case Bantime => c.bantime == d.bantime
    case Findtime => c.findtime == d.findtime
    case Expiretime => c.expiretime == d.expiretime
    case Banscore => c.banscore == d.banscore
    case BantimeExtend => c.bantimeExtend == d.bantimeExtend
    case FindtimeExtend => c.findtimeExtend == d.findtimeExtend
    case ExpiretimeExtend => c.expiretimeExtend == d.expiretimeExtend
    case Deprecated => true
    case Unknown => true
  }

  lemma NamesSettle(p: Parameter, name: string)
    requires Settable(p)
    ensures ParameterOf(name) == p <==> name == NameOf(p)
  {}

  lemma FlagNames(p: Parameter)
    requires Settable(p)
    ensures NameOf(p) != "state" && NameOf(p) != "source" && NameOf(p) != "filter" && NameOf(p) != "backend"
  {}

  lemma SetParamTouches(c: J.Config, d: J.Config, q: Parameter, p: Parameter, value: string, number: real)
    ensures q == p ==> Agree(p, SetParam(c, q, value, number), SetParam(d, p, value, number))
    ensures q != p ==> Agree(p, SetParam(c, q, value, number), c)
  {
    hide Atoi, Positive, J.Int16;
  }

  lemma StepDecides(c: J.Config, d: J.Config, p: Param, atof: Atof, q: Parameter)
    requires Settable(q)
    ensures if p.name == NameOf(q) then Agree(q, ApplyParam(c, p, atof), SetParam(d, q, p.value, atof(p.value)))
            else Agree(q, ApplyParam(c, p, atof), c)
  {
    hide ParameterOf, SetParam, NameOf;
    FlagNames(q);
    NamesSettle(q, p.name);
    SetParamTouches(c, d, ParameterOf(p.name), q, p.value, atof(p.value));
  }

  lemma AgreeTransitive(p: Parameter, a: J.Config, b: J.Config, c: J.Config)
    requires Agree(p, a, b) && Agree(p, b, c)
    ensures Agree(p, a, c)
  {}

  /** The last value assigned to a setting decides it; without one it stays. */
  lemma {:induction false} LastDecides(c: J.Config, d: J.Config, ps: seq<Param>, atof: Atof, p: Parameter)
    requires Settable(p)
    ensures match LastValue(ps, NameOf(p))
            case None => Agree(p, Apply(c, ps, atof), c)
            case Some(v) => Agree(p, Apply(c, ps, atof), SetParam(d, p, v, atof(v)))
  {
    if ps == [] {
      AgreeItself(p, c);
    } else {
      hide ParameterOf, SetParam, NameOf, ApplyParam, Agree;
      var init, last := ps[..|ps| - 1], ps[|ps| - 1];
      var c1 := Apply(c, init, atof);
      LastDecides(c, d, init, atof, p);
      StepDecides(c1, d, last, atof, p);
      if last.name != NameOf(p) {
        match LastValue(init, NameOf(p))
        case None => AgreeTransitive(p, ApplyParam(c1, last, atof), c1, c);
        case Some(v) => AgreeTransitive(p, ApplyParam(c1, last, atof), c1, SetParam(d, p, v, atof(v)));
      }
    }
  }

  lemma AgreeItself(p: Parameter, c: J.Config)
    ensures Agree(p, c, c)
  {}

  // --- from the file to the jail ---

  /** The parameters of a section after the load, none if there is no such section. */
  function ParamsOf(store: Store, id: SectionId): seq<Param> {
    var ss := Of(store, id.kind);
    var k := FindSection(ss, id.name);
    if k < |ss| then ss[k].params else []
  }

  lemma ParamsAssigned(lines: seq<Line>, id: SectionId)
    ensures ParamsOf(Load(lines).store, id) == Kept(id.kind, Assigned(lines, id))
  {
    hide Assigned, Load, FindSection, Merged;
    var ss := Of(Load(lines).store, id.kind);
    var k := FindSection(ss, id.name);
    LoadIsFaithful(lines, id.kind);
    SectionFound(ss, id.name);
    assert id == SectionId(id.kind, id.name);
    if k < |ss| {
      assert ss[k] in ss;
    } else {
      NotMentioned(lines, id);
      assert Merged([]) == [] by { NothingMerged(); }
    }
  }

  lemma NothingMerged()
    ensures Merged([]) == []
  {}

  lemma {:induction false} UniqueIsLast(ps: seq<Param>, name: string)
    requires UniqueKeys(ps)
    ensures LastValue(ps, name) == ValueOf(ps, name)
  {
    hide FindParam;
    ParamFound(ps, name);
    if ps != [] {
      var init := ps[..|ps| - 1];
      var k := FindParam(ps, name);
      ParamFound(init, name);
      UniqueIsLast(init, name);
      if k < |init| { FoundAt(init, name, k); } else { FoundAt(init, name, |init|); }
    }
  }

  lemma KeptLast(t: SectionType, ps: seq<Param>, name: string)
    ensures LastValue(Kept(t, ps), name) == LastValue(ps, name)
  {
    hide Merged;
    if Merges(t) {
      MergedIsLast(ps, name);
      UniqueIsLast(Merged(ps), name);
    }
  }

  const DEFAULTS := SectionId(Defaults, "")

  /** A new jail: what the defaults held before, the section [defaults], then the jail's own section. */
  function Configured(before: J.Config, store: Store, name: string, atof: Atof): J.Config {
    Apply(Apply(before, ParamsOf(store, DEFAULTS), atof), ParamsOf(store, SectionId(Configs.Jail, name)), atof)
  }

  /** A setting is the last assignment in the jail's section; else the last one in [defaults]; else
      what the defaults held before the file was read. */
  lemma JailSetting(lines: seq<Line>, name: string, before: J.Config, d: J.Config, atof: Atof, p: Parameter)
    requires Settable(p)
    ensures var c := Configured(before, Load(lines).store, name, atof);
            match LastValue(Assigned(lines, SectionId(Configs.Jail, name)), NameOf(p))
            case Some(v) => Agree(p, c, SetParam(d, p, v, atof(v)))
            case None =>
              match LastValue(Assigned(lines, SectionId(Configs.Defaults, "")), NameOf(p))
              case Some(v) => Agree(p, c, SetParam(d, p, v, atof(v)))
              case None => Agree(p, c, before)
  {
    hide Assigned, Load, ParamsOf, Apply, SetParam, NameOf, LastValue, Kept, Agree;
    var own, base := SectionId(Configs.Jail, name), DEFAULTS;
    ParamsAssigned(lines, own);
    ParamsAssigned(lines, base);
    KeptLast(Configs.Jail, Assigned(lines, own), NameOf(p));
    KeptLast(Defaults, Assigned(lines, base), NameOf(p));
    var middle := Apply(before, ParamsOf(Load(lines).store, base), atof);
    LastDecides(before, d, ParamsOf(Load(lines).store, base), atof, p);
    LastDecides(middle, d, ParamsOf(Load(lines).store, own), atof, p);
    var c := Configured(before, Load(lines).store, name, atof);
    if LastValue(Assigned(lines, own), NameOf(p)).None? {
      match LastValue(Assigned(lines, base), NameOf(p))
      case None => AgreeTransitive(p, c, middle, before);
      case Some(v) => AgreeTransitive(p, c, middle, SetParam(d, p, v, atof(v)));
    }
  }

  // --- a jail of a daemon that has just started ---

  /** What the defaults hold before any file is read. */
  const FIRST := J.Config(false, false, false, false, false, 3600, 300, 14400, 50, 0.0, 0.0, 0.0)

  /** The value that the file gives to a setting of a jail: the last one in its own section, else the last
      one in [defaults]. */
  function Chosen(lines: seq<Line>, name: string, key: string): Option<string> {
    match LastValue(Assigned(lines, SectionId(Configs.Jail, name)), key)
    case Some(v) => Some(v)
    case None => LastValue(Assigned(lines, SectionId(Configs.Defaults, "")), key)
  }

  lemma ChosenDecides(lines: seq<Line>, name: string, atof: Atof, p: Parameter)
    requires Settable(p)
    ensures var c := Configured(FIRST, Load(lines).store, name, atof);
            match Chosen(lines, name, NameOf(p))
            case Some(v) => Agree(p, c, SetParam(FIRST, p, v, atof(v)))
            case None => Agree(p, c, FIRST)
  {
    hide Configured, Load, Assigned, LastValue, SetParam, Agree, NameOf;
    JailSetting(lines, name, FIRST, FIRST, atof, p);
  }

  /** The number that a setting has on file, zero if it is not there. */
  function OnFile(lines: seq<Line>, name: string, key: string): int {
    match Chosen(lines, name, key)
    case Some(v) => Atoi(v)
    case None => 0
  }

  /** From the lines of the file to the times and the score limit of a jail. */
  lemma FirstNumbers(lines: seq<Line>, name: string, atof: Atof)
    ensures var c := Configured(FIRST, Load(lines).store, name, atof);
            var b, f, e := OnFile(lines, name, "bantime"), OnFile(lines, name, "findtime"), OnFile(lines, name, "expiretime");
            var score := OnFile(lines, name, "banscore");
            && c.bantime == (if b > 0 then b else 3600)
            && c.findtime == (if f > 0 then f else 300)
            && c.expiretime == (if e > 0 then e else 14400)
            && (score == 0 ==> c.banscore == 50)
            && (score != 0 && -0x8000 <= score < 0x8000 ==> c.banscore == score)
            && (c.enabled <==> Chosen(lines, name, "enabled") == Some("yes"))
  {
    hide Configured, Load, Chosen, Atoi, J.Int16;
    ChosenDecides(lines, name, atof, Enabled);
    ChosenDecides(lines, name, atof, Bantime);
    ChosenDecides(lines, name, atof, Findtime);
    ChosenDecides(lines, name, atof, Expiretime);
    ChosenDecides(lines, name, atof, Banscore);
    Int16Range(OnFile(lines, name, "banscore"));
    Int16Range(0);
  }

  predicate Assigns(ps: seq<Param>, name: string) {
    exists p :: p in ps && p.name == name
  }

  /** A module or state flag is set by any assignment to it, whatever the value, and never cleared. */
  lemma {:induction false} FlagsStick(c: J.Config, ps: seq<Param>, atof: Atof)
    ensures var d := Apply(c, ps, atof);
            && d.hasState == (c.hasState || Assigns(ps, "state"))
            && d.hasSource == (c.hasSource || Assigns(ps, "source"))
            && d.hasFilter == (c.hasFilter || Assigns(ps, "filter"))
            && d.hasBackend == (c.hasBackend || Assigns(ps, "backend"))
  {
    hide SetParam, ParameterOf, Assigns;
    NothingAssigned();
    if ps != [] {
      var init, last := ps[..|ps| - 1], ps[|ps| - 1];
      FlagsStick(c, init, atof);
      FlagsKept(Apply(c, init, atof), last, atof(last.value));
      assert ps == init + [last];
      AssignsMore(init, last, "state");
      AssignsMore(init, last, "source");
      AssignsMore(init, last, "filter");
      AssignsMore(init, last, "backend");
    }
  }

  lemma NothingAssigned()
    ensures forall name :: !Assigns([], name)
  {}

  lemma AssignsMore(ps: seq<Param>, p: Param, name: string)
    ensures Assigns(ps + [p], name) <==> Assigns(ps, name) || p.name == name
  {
    if q :| q in ps && q.name == name { assert q in ps + [p]; }
    assert p in ps + [p];
  }

  lemma FlagsKept(c: J.Config, p: Param, number: real)
    ensures var d := SetParam(c, ParameterOf(p.name), p.value, number);
            && d.hasState == c.hasState && d.hasSource == c.hasSource
            && d.hasFilter == c.hasFilter && d.hasBackend == c.hasBackend
  {
    hide Atoi, Positive, J.Int16, ParameterOf;
  }
}
