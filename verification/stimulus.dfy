/** The stimulus protocol of `Test_State` as a list of actions (drive a key
    combination, or let one rising clock edge pass), run against a DUT that
    behaves exactly as the expectation table says. The settle waits only
    order sampling after edges and have no action of their own. */
module Stimulus {
  import opened GameFsm

  datatype Action = Press(key: Key) | Edge

  /** The DUT as the table predicts it: its state, the flags the last edge
      produced, and the key combination currently driven. */
  datatype Dut = Dut(state: State, flags: nat, held: Key)

  /** One action. Driving keys takes effect only at the next edge; after an
      edge the flags shown are those of the state reached, and the keys stay
      driven. */
  function Apply(d: Dut, a: Action): (d': Dut)
    ensures a.Press? ==> d'.state == d.state && d'.flags == d.flags && d'.held == a.key
    ensures a.Edge? ==> d'.held == d.held && d'.flags == StateFlags(d'.state)
  {
    match a
    case Press(k) => d.(held := k)
    case Edge =>
      var e := Step(d.state, d.held);
      Dut(e.next, e.flags, d.held)
  }

  /** The DUT after the actions, in order. */
  function Run(d: Dut, acts: seq<Action>): Dut
    decreases |acts|
  {
    if |acts| == 0 then d else Run(Apply(d, acts[0]), acts[1..])
  }

  lemma {:induction false} RunAppend(d: Dut, a: seq<Action>, b: seq<Action>)
    ensures Run(d, a + b) == Run(Run(d, a), b)
    decreases |a|
  {
    if |a| == 0 {
      assert a + b == b;
    } else {
      assert (a + b)[0] == a[0];
      assert (a + b)[1..] == a[1..] + b;
      RunAppend(Apply(d, a[0]), a[1..], b);
    }
  }

  /** Release all keys and let two edges pass. */
  const Drain: seq<Action> := [Press(NoKey), Edge, Edge]

  /** The actions that, from IDLE, are meant to reach `init`. The branch for
      RIGHT presses LEFT. */
  function Reach(init: State): (acts: seq<Action>)
    ensures |acts| > 0 && acts[|acts| - 1] == Edge
    ensures forall i :: 0 <= i < |acts| && acts[i].Press? ==> acts[i].key != RightKey
  {
    match init
    case Idle => [Edge]
    case MoveLeft => [Press(LeftKey), Edge]
    case MoveRight => [Press(LeftKey), Edge]
    case AttackStart => [Press(AttackKey), Edge]
    case AttackActive => [Press(AttackKey), Edge, Press(NoKey), Edge]
  }

  function Setup(init: State): seq<Action>
  {
    Drain + Reach(init)
  }

  /** All actions of one `Test_State` call: setup, then the key under test
      for one more edge. */
  function CaseActions(c: Case): seq<Action>
  {
    Setup(c.initial) + [Press(c.key), Edge]
  }

  /** The state the setup actually reaches. */
  function SetupTarget(init: State): State
  {
    if init == MoveRight then MoveLeft else init
  }

  /** Two edges with all keys released bring the table to IDLE from every
      state, so a case never depends on what the previous one left. */
  lemma DrainReachesIdle(d: Dut)
    ensures Run(d, Drain).state == Idle
    ensures Run(d, Drain).held == NoKey
  {
    var d1 := Apply(d, Press(NoKey));
    var d2 := Apply(d1, Edge);
    var d3 := Apply(d2, Edge);
    assert Drain[1..] == [Edge, Edge];
    assert Drain[1..][1..] == [Edge];
    assert Run(d, Drain) == Run(d3, []);
  }

  lemma RunPressEdge(d: Dut, k: Key)
    ensures Run(d, [Press(k), Edge]) == Apply(Apply(d, Press(k)), Edge)
  {
    var d1 := Apply(d, Press(k));
    assert [Press(k), Edge][1..] == [Edge];
    assert Run(d, [Press(k), Edge]) == Run(d1, [Edge]);
    assert [Edge][1..] == [];
    assert Run(d1, [Edge]) == Run(Apply(d1, Edge), []);
  }

  lemma RunOneEdge(d: Dut)
    ensures Run(d, [Edge]) == Apply(d, Edge)
  {
  }

  /** The setup reaches IDLE, LEFT and ATTACK_START in one edge after the
      drain, ATTACK_ACTIVE in two (attack, then release); the RIGHT setup
      ends in LEFT. */
  lemma {:induction false} SetupReaches(init: State, d: Dut)
    ensures Run(d, Setup(init)).state == SetupTarget(init)
  {
    RunAppend(d, Drain, Reach(init));
    DrainReachesIdle(d);
    var idle := Run(d, Drain);
    match init
    case Idle =>
      RunOneEdge(idle);
    case MoveLeft =>
      RunPressEdge(idle, LeftKey);
    case MoveRight =>
      RunPressEdge(idle, LeftKey);
    case AttackStart =>
      RunPressEdge(idle, AttackKey);
    case AttackActive =>
      assert Reach(AttackActive) == [Press(AttackKey), Edge] + [Press(NoKey), Edge];
      RunAppend(idle, [Press(AttackKey), Edge], [Press(NoKey), Edge]);
      RunPressEdge(idle, AttackKey);
      RunPressEdge(Run(idle, [Press(AttackKey), Edge]), NoKey);
  }

  /** The RIGHT setup does not reach RIGHT, yet under every key it leads to
      the outcome the RIGHT rows expect, because LEFT and RIGHT rows agree. */
  lemma RightSetupHarmless(d: Dut, k: Key)
    ensures Run(d, Setup(MoveRight)).state != MoveRight
    ensures Step(Run(d, Setup(MoveRight)).state, k) == Step(MoveRight, k)
  {
    SetupReaches(MoveRight, d);
    RightRowsEqualLeftRows(k);
  }

  /** Running a case's actions from any DUT state ends in the state and
      flags that case expects. */
  lemma {:induction false} CaseMeetsExpectation(i: nat, d: Dut)
    requires i < |Cases|
    ensures Run(d, CaseActions(Cases[i])).state == Cases[i].expected
    ensures Run(d, CaseActions(Cases[i])).flags == Cases[i].flags
  {
    var c := Cases[i];
    RunAppend(d, Setup(c.initial), [Press(c.key), Edge]);
    var ready := Run(d, Setup(c.initial));
    SetupReaches(c.initial, d);
    RunPressEdge(ready, c.key);
    RightRowsEqualLeftRows(c.key);
    StepMatchesCases(i);
  }

  /** The outcome of a case does not depend on the DUT it starts from. */
  lemma {:induction false} CasesAreIsolated(c: Case, d: Dut, d': Dut)
    ensures Run(d, CaseActions(c)) == Run(d', CaseActions(c))
  {
    RunAppend(d, Setup(c.initial), [Press(c.key), Edge]);
    RunAppend(d', Setup(c.initial), [Press(c.key), Edge]);
    SetupReaches(c.initial, d);
    SetupReaches(c.initial, d');
    RunPressEdge(Run(d, Setup(c.initial)), c.key);
    RunPressEdge(Run(d', Setup(c.initial)), c.key);
  }

  /** The directional-attack scenario: release and two edges, LEFT for one
      edge, then the attack key with no further edge before sampling. */
  const DirectionalActions: seq<Action> := Drain + [Press(LeftKey), Edge, Press(AttackKey)]

  /** The table alone predicts LEFT with flags 0b001 at the directional
      sample point: the expected 0b011 is not derivable from the table. */
  lemma {:induction false} TablePredictsLeftAtDirectionalSample(d: Dut)
    ensures Run(d, DirectionalActions).state == MoveLeft
    ensures Run(d, DirectionalActions).flags == 1
    ensures Run(d, DirectionalActions).held == AttackKey
  {
    RunAppend(d, Drain, [Press(LeftKey), Edge, Press(AttackKey)]);
    DrainReachesIdle(d);
    var idle := Run(d, Drain);
    assert [Press(LeftKey), Edge, Press(AttackKey)] == [Press(LeftKey), Edge] + [Press(AttackKey)];
    RunAppend(idle, [Press(LeftKey), Edge], [Press(AttackKey)]);
    RunPressEdge(idle, LeftKey);
  }
}
