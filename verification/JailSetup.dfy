/** f2b_jail_set_param and f2b_jail_apply_config: settings of a jail changed in place. */
module JailSetup {
  import opened Text
  import opened Configs
  import opened Settings
  import opened JailConfig
  import opened JailModules
  import opened JailDaemon
  import opened J = Jail

  /** f2b_jail_set_param */
  method SetParameter(j: JailObj, param: string, value: string, atof: Atof) returns (known: bool)
    modifies j`cfg
    ensures j.cfg == SetParam(old(j.cfg), ParameterOf(param), value, atof(value))
    ensures known <==> ParameterOf(param) != Unknown
  {
    hide Atoi, Positive;
    var c := j.cfg;
    if param == "enabled" {
      j.cfg := c.(enabled := value == "yes");
      return true;
    }
    if param == "bantime" {
      j.cfg := c.(bantime := Positive(Atoi(value), DEFAULT_BANTIME));
      return true;
    }
    if param == "findtime" {
      j.cfg := c.(findtime := Positive(Atoi(value), DEFAULT_FINDTIME));
      return true;
    }
    if param == "expiretime" {
      j.cfg := c.(expiretime := Positive(Atoi(value), DEFAULT_EXPIRETIME));
      return true;
    }
    if param == "banscore" {
      var n := Atoi(value);
      n := Int16(n);
      j.cfg := c.(banscore := if n == 0 then DEFAULT_BANSCORE else n);
      return true;
    }
    if param == "bantime_extend" {
      j.cfg := c.(bantimeExtend := atof(value));
      return true;
    }
    if param == "findtime_extend" {
      j.cfg := c.(findtimeExtend := atof(value));
      return true;
    }
    if param == "expiretime_extend" {
      j.cfg := c.(expiretimeExtend := atof(value));
      return true;
    }
    return param == "incr_bantime" || param == "incr_findtime" || param == "maxretry";
  }

  /** f2b_jail_parse_compound_value */
  method ParseCompound(m: Module, value: string) returns (m': Module)
    requires NulFree(value)
    ensures m' == Compound(m, value)
  {
    var k := 0;
    while k < |value| && value[k] != ':'
      invariant k <= |value| && forall i :: 0 <= i < k ==> value[i] != ':'
    {
      k := k + 1;
    }
    FindFrom(value, ':', k);
    if k == |value| {
      return m.(name := Front(value, KEY_MAX));
    }
    if k > KEY_MAX {
      return m;
    }
    m' := Module(value[..k], Front(value[k + 1..], INIT_MAX));
  }

  /** f2b_jail_apply_config */
  method ApplyConfig(j: JailObj, ps: seq<Param>, atof: Atof)
    requires forall p :: p in ps ==> NulFree(p.value)
    modifies j`cfg, j`modules
    ensures j.cfg == Apply(old(j.cfg), ps, atof) && j.modules == ApplyModules(old(j.modules), ps)
  {
    hide SetParam, ParameterOf, Compound;
    for i := 0 to |ps|
      invariant j.cfg == Apply(old(j.cfg), ps[..i], atof) && j.modules == ApplyModules(old(j.modules), ps[..i])
    {
      assert ps[..i + 1][..i] == ps[..i];
      ApplyNext(j, ps[i], atof);
    }
    assert ps[..|ps|] == ps;
  }

  /** One parameter of a section. */
  method ApplyNext(j: JailObj, p: Param, atof: Atof)
    requires NulFree(p.value)
    modifies j`cfg, j`modules
    ensures j.cfg == ApplyParam(old(j.cfg), p, atof) && j.modules == ApplyModule(old(j.modules), p)
  {
    hide SetParam, ParameterOf, Compound;
    if p.name == "state" {
      j.cfg := j.cfg.(hasState := true);
    } else if p.name == "source" {
      var m := ParseCompound(j.modules.source, p.value);
      j.modules := j.modules.(source := m);
      j.cfg := j.cfg.(hasSource := true);
    } else if p.name == "filter" {
      var m := ParseCompound(j.modules.filter, p.value);
      j.modules := j.modules.(filter := m);
      j.cfg := j.cfg.(hasFilter := true);
    } else if p.name == "backend" {
      var m := ParseCompound(j.modules.backend, p.value);
      j.modules := j.modules.(backend := m);
      j.cfg := j.cfg.(hasBackend := true);
    } else {
      var _ := SetParameter(j, p.name, p.value, atof);
      OtherModule(j.modules, p);
    }
  }

  lemma OtherModule(ms: Modules, p: Param)
    requires p.name != "source" && p.name != "filter" && p.name != "backend"
    ensures ApplyModule(ms, p) == ms
  {}
}
