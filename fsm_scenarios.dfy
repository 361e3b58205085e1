// Two small uses of the machine, written as clients that rely only on the
// specifications of its methods.

module FsmScenarios {
  import opened FsmGraph
  import opened FsmStep
  import opened FsmMachine

  datatype Phase = Idle | Running | Done

  /**
   * Idle -> Running -> Done, each gated by its own guard. Nothing happens
   * while the first guard is false; once it is true the machine moves to
   * Running. Done is terminal, Idle and Running are not.
   */
  method IdleRunningDone()
  {
    var m := new Machine<Phase, nat>();
    var ok1 := m.RegisterTransition(Idle, Running, 1);
    var ok2 := m.RegisterTransition(Running, Done, 2);
    assert ok1 && ok2;
    ghost var g := m.Tables();
    RegisterEffect(g, Idle, Running, 3);
    assert RulesOf(g, Idle)[0].next == Running;
    var again := m.RegisterTransition(Idle, Running, 3);
    assert !again;
    m.SetState(Idle);
    var r := m.TryTrigger(g => false);
    assert r == NoChange && m.current == Idle;
    r := m.TryTrigger(g => g == 1);
    assert r == Changed(Idle, Running) && m.current == Running;
    assert m.IsTerminatedState(Done);
    assert !m.IsTerminatedState(Idle) && !m.IsTerminatedState(Running);
  }

  /** Idle -> Running and Idle -> Done with both guards true: the attempt is ambiguous and Idle stays. */
  method TwoGuardsTrue()
  {
    var m := new Machine<Phase, nat>();
    var ok1 := m.RegisterTransition(Idle, Running, 1);
    var ok2 := m.RegisterTransition(Idle, Done, 2);
    assert ok1 && ok2;
    m.SetState(Idle);
    var both: nat -> bool := g => true;
    assert MatchesUpTo(m.trans[Idle], both, 2) == [Running, Done];
    var r := m.TryTrigger(both);
    assert r == AmbiguousState && m.current == Idle;
  }
}
