/** The life of one jail object: started, served for any sequence of passes, commands and settings,
    stopped. The object goes through the states that module JailRuns gives for the run. */
module JailLifetime {
  import opened Chain
  import opened Hosts
  import opened HostRecord
  import opened Jail
  import opened Settings
  import opened JailRuns
  import opened JailDaemon
  import JailControl
  import JailSetup

  /** The steps of a running jail. */
  predicate Serves(step: Step) { step.Pass? || step.Command? || step.Set? }

  /** A setting changes nothing but the configuration. */
  method SetOne(j: JailObj, param: string, value: string, number: real)
    requires j.Shape() && forall r :: r in j.Recs() ==> r.matches.Valid()
    modifies j`cfg
    ensures j.Shape() && forall r :: r in j.Recs() ==> r.matches.Valid()
    ensures j.cfg == SetParam(old(j.cfg), ParameterOf(param), value, number) && j.View() == old(j.View())
  {
    hide SetParam, ParameterOf, Linked, Separate, Views, Within, Items;
    ghost var recs, views := j.Recs(), Views(j.Recs());
    var _ := JailSetup.SetParameter(j, param, value, _ => number);
    assert j.Recs() == recs && Views(recs) == views;
  }

  method ServeOne(j: JailObj, accepts: Acceptor, step: Step, ghost s: System)
    requires j.Shape() && forall r :: r in j.Recs() ==> r.matches.Valid()
    requires Serves(step) && j.cfg == s.cfg && j.View() == s.jail
    modifies j, j.backend, j.sfile, j.repr
    ensures j.Shape() && forall r :: r in j.Recs() ==> r.matches.Valid()
    ensures fresh(j.repr - old(j.repr))
    ensures j.cfg == Next(accepts, s, step).cfg && j.View() == Next(accepts, s, step).jail
  {
    hide JailObj.Shape, JailObj.View, Process, Operate, SetParam, ParameterOf;
    match step
    case Pass(now, events) => JailControl.Process(j, events, now);
    case Command(now, op, ip) => var _ := JailControl.Operate(j, accepts, op, ip, now);
    case Set(param, value, number) =>
      SetOne(j, param, value, number);
  }

  /** Any sequence of steps of a running jail. */
  method Serve(j: JailObj, accepts: Acceptor, steps: seq<Step>, ghost s: System)
    requires j.Shape() && forall r :: r in j.Recs() ==> r.matches.Valid()
    requires (forall step :: step in steps ==> Serves(step)) && j.cfg == s.cfg && j.View() == s.jail
    modifies j, j.backend, j.sfile, j.repr
    ensures j.Shape() && forall r :: r in j.Recs() ==> r.matches.Valid()
    ensures fresh(j.repr - old(j.repr))
    ensures j.cfg == Run(accepts, s, steps).cfg && j.View() == Run(accepts, s, steps).jail
  {
    hide JailObj.Shape, JailObj.View, Next, Run;
    RunNothing(accepts, s);
    for i := 0 to |steps|
      invariant j.Shape() && forall r :: r in j.Recs() ==> r.matches.Valid()
      invariant fresh(j.repr - old(j.repr))
      invariant j.cfg == Run(accepts, s, steps[..i]).cfg && j.View() == Run(accepts, s, steps[..i]).jail
    {
      RunOneMore(accepts, s, steps[..i], steps[i]);
      assert steps[..i + 1] == steps[..i] + [steps[i]];
      ServeOne(j, accepts, steps[i], Run(accepts, s, steps[..i]));
    }
    assert steps[..|steps|] == steps;
  }

  lemma RunNothing(accepts: Acceptor, s: System)
    ensures Run(accepts, s, []) == s
  {}

  /** A whole life: whatever happens in between, nothing stays banned in the backend. */
  method Live(accepts: Acceptor, cfg: Config, backend: Backend, sfile: StateStore, now: nat, steps: seq<Step>,
              ghost s: System)
    requires Initial(accepts, s) && s.jail.backend == backend.banned && s.jail.file == sfile.content && !sfile.needSave
    requires forall step :: step in steps ==> Serves(step)
    requires Legal(accepts, s, [StartUp(now, cfg)] + steps)
    modifies backend, sfile
    ensures backend.banned == {}
    ensures sfile.content == Run(accepts, s, [StartUp(now, cfg)] + steps).jail.file
  {
    hide JailObj.Shape, JailObj.View, Run, Legal, Initial, Start, Stop;
    var j := new JailObj(cfg, backend, sfile);
    JailControl.Start(j, accepts, now);
    ghost var s1 := Next(accepts, s, StartUp(now, cfg));
    Serve(j, accepts, steps, s1);
    RunFirst(accepts, s, StartUp(now, cfg), steps);
    LifeEnds(accepts, s, now, cfg, steps);
    FileOf(j);
    JailControl.Stop(j);
  }

  lemma FileOf(j: JailObj)
    ensures j.View().file == j.sfile.content
  {}

  lemma {:induction false} RunFirst(accepts: Acceptor, s: System, step: Step, steps: seq<Step>)
    ensures Run(accepts, s, [step] + steps) == Run(accepts, Next(accepts, s, step), steps)
  {
    hide Next, Run;
    if steps == [] {
      assert [step] + [] == [] + [step];
      RunOneMore(accepts, s, [], step);
      RunNothing(accepts, s);
      RunNothing(accepts, Next(accepts, s, step));
    } else {
      var init, last := steps[..|steps| - 1], steps[|steps| - 1];
      RunFirst(accepts, s, step, init);
      assert [step] + steps == ([step] + init) + [last] && steps == init + [last];
      RunOneMore(accepts, s, [step] + init, last);
      RunOneMore(accepts, Next(accepts, s, step), init, last);
    }
  }

  lemma {:induction false} StillRunning(accepts: Acceptor, s: System, steps: seq<Step>)
    requires s.running && forall step :: step in steps ==> Serves(step)
    ensures Run(accepts, s, steps).running
  {
    if steps != [] {
      StillRunning(accepts, s, steps[..|steps| - 1]);
      assert Serves(steps[|steps| - 1]);
    }
    hide Start, Stop, Process, Operate, SetParam;
  }

  lemma LifeEnds(accepts: Acceptor, s: System, now: nat, cfg: Config, steps: seq<Step>)
    requires Initial(accepts, s) && Legal(accepts, s, [StartUp(now, cfg)] + steps)
    requires forall step :: step in steps ==> Serves(step)
    ensures var s' := Run(accepts, s, [StartUp(now, cfg)] + steps); Stop(s'.cfg, s'.jail).backend == {}
  {
    hide Run, Legal, Initial, Start, Stop;
    RunFirst(accepts, s, StartUp(now, cfg), steps);
    StillRunning(accepts, Next(accepts, s, StartUp(now, cfg)), steps);
    RunKeepsInvariant(accepts, s, [StartUp(now, cfg)] + steps);
    StepKeepsInvariant(accepts, Run(accepts, s, [StartUp(now, cfg)] + steps), ShutDown);
  }
}
