/** Sampling, comparison and the overall verdict of the game clock generator
    test: how the three flag outputs are packed, when one `Test_State` call
    passes, when the directional-attack check passes, and when the whole run
    raises its final `AssertionError`. */
module Orchestrator {
  import opened Wrappers
  import opened GameFsm
  import opened Stimulus

  /** What the test reads from the DUT after a case: the STATE output, as
      the named state it encodes (None for a code that names none of the
      five), and the raw values of the three flag outputs. */
  datatype Reading = Reading(state: Option<State>, attackFlag: nat, attackDirFlag: nat, moveFlag: nat)

  /** `((ATTACK_FLAG & 1) << 2) | ((ATTACK_DIR_FLAG & 1) << 1) | (MOVE_FLAG & 1)`:
      the three one-bit fields are disjoint, so the OR is a sum. */
  function PackFlags(attack: nat, attackDir: nat, move: nat): (r: nat)
    ensures r < 8
    ensures r == 4 * (attack % 2) + 2 * (attackDir % 2) + move % 2
  {
    ((((attack % 2) as bv3) << 2) | (((attackDir % 2) as bv3) << 1) | ((move % 2) as bv3)) as nat
  }

  /** Each flag is recovered from its own bit of the packed value. */
  lemma UnpackFlags(attack: nat, attackDir: nat, move: nat)
    ensures PackFlags(attack, attackDir, move) / 4 == attack % 2
    ensures PackFlags(attack, attackDir, move) / 2 % 2 == attackDir % 2
    ensures PackFlags(attack, attackDir, move) % 2 == move % 2
  {
  }

  /** A `Test_State` call passes when the state read is the desired state and
      the packed flags are the desired flags. */
  predicate CasePasses(c: Case, rd: Reading)
    ensures CasePasses(c, rd) <==>
      && rd.state == Some(c.expected)
      && c.flags < 8
      && rd.attackFlag % 2 == c.flags / 4
      && rd.attackDirFlag % 2 == c.flags / 2 % 2
      && rd.moveFlag % 2 == c.flags % 2
  {
    rd.state == Some(c.expected) && PackFlags(rd.attackFlag, rd.attackDirFlag, rd.moveFlag) == c.flags
  }

  /** The low three bits of `x`. */
  function Low3(x: nat): bv3
  {
    (x % 8) as bv3
  }

  /** Bits 0, 1 and 2 of `x`, read off its low three bits. */
  lemma Low3Bits(x: nat)
    ensures Low3(x) & 1 != 0 <==> x % 2 == 1
    ensures Low3(x) & 2 != 0 <==> x / 2 % 2 == 1
    ensures Low3(x) & 4 != 0 <==> x / 4 % 2 == 1
  {
    LowBitsMod8(x);
    SmallBits(x % 8);
  }

  /** Bits 0, 1 and 2 of `x` are those of `x % 8`. */
  lemma LowBitsMod8(x: nat)
    ensures x % 2 == x % 8 % 2
    ensures x / 2 % 2 == x % 8 / 2 % 2
    ensures x / 4 % 2 == x % 8 / 4 % 2
  {
    var q, r := x / 8, x % 8;
    assert x == 8 * q + r;
    Halve(x, 4 * q + r / 2, r % 2);
    Halve(4 * q + r / 2, 2 * q + r / 4, r / 2 % 2);
    Halve(2 * q + r / 4, q, r / 4 % 2);
    assert x / 4 == 2 * q + r / 4 by {
      assert 4 * (2 * q + r / 4) <= x < 4 * (2 * q + r / 4) + 4;
    }
  }

  /** Division by two with its remainder, given as the split `n = 2h + b`. */
  lemma Halve(n: nat, h: nat, b: nat)
    requires b < 2 && n == 2 * h + b
    ensures n / 2 == h && n % 2 == b
  {
  }

  lemma SmallBits(y: nat)
    requires y < 8
    ensures (y as bv3) & 1 != 0 <==> y % 2 == 1
    ensures (y as bv3) & 2 != 0 <==> y / 2 % 2 == 1
    ensures (y as bv3) & 4 != 0 <==> y / 4 % 2 == 1
  {
    if y == 0 {} else if y == 1 {} else if y == 2 {} else if y == 3 {}
    else if y == 4 {} else if y == 5 {} else if y == 6 {} else {}
  }

  /** The directional check `0b111 & ((ATTACK << 2) | (ATTACK_DIR << 1) | MOVE)`
      on the full integer values: masking to three bits keeps bit 0 of
      ATTACK, bits 0..1 of ATTACK_DIR and bits 0..2 of MOVE, and a bit of
      the mask is set when any value contributing to it has it set. */
  function DirectionalBits(attack: nat, attackDir: nat, move: nat): (r: nat)
    ensures r < 8
    ensures r % 2 == move % 2
    ensures r / 2 % 2 == 1 <==> attackDir % 2 == 1 || move / 2 % 2 == 1
    ensures r / 4 == 1 <==> attack % 2 == 1 || attackDir / 2 % 2 == 1 || move / 4 % 2 == 1
  {
    var mask := (Low3(attack) << 2) | (Low3(attackDir) << 1) | Low3(move);
    Low3Bits(attack);
    Low3Bits(attackDir);
    Low3Bits(move);
    Low3Bits(mask as nat);
    assert Low3(mask as nat) == mask;
    mask as nat
  }

  predicate DirectionalPasses(attack: nat, attackDir: nat, move: nat) {
    DirectionalBits(attack, attackDir, move) == 3
  }

  /** For any flag values, the check at lines 162-164 passes exactly when
      MOVE has bit 0 set, ATTACK_DIR bit 0 or MOVE bit 1 is set, and none of
      ATTACK bit 0, ATTACK_DIR bit 1 and MOVE bit 2 is set. */
  lemma DirectionalPassesExactly(attack: nat, attackDir: nat, move: nat)
    ensures DirectionalPasses(attack, attackDir, move) <==>
      && move % 2 == 1
      && (attackDir % 2 == 1 || move / 2 % 2 == 1)
      && !(attack % 2 == 1 || attackDir / 2 % 2 == 1 || move / 4 % 2 == 1)
  {
    var r := DirectionalBits(attack, attackDir, move);
    assert r == 3 <==> r % 2 == 1 && r / 2 % 2 == 1 && r / 4 == 0;
  }

  /** On one-bit flag values the directional mask is the packing used for
      the cases, and the check passes exactly when MOVE and ATTACK_DIR are
      set and ATTACK is clear. */
  lemma DirectionalOnBits(attack: nat, attackDir: nat, move: nat)
    requires attack < 2 && attackDir < 2 && move < 2
    ensures DirectionalBits(attack, attackDir, move) == PackFlags(attack, attackDir, move)
    ensures DirectionalPasses(attack, attackDir, move) <==> attack == 0 && attackDir == 1 && move == 1
  {
  }

  /** The outer `test_failed` as written. The assignment at line 115 sits in
      the nested `Test_State`, where it binds a new local, so no case can
      set the outer flag; only the directional check assigns it. */
  function RaisesAsWritten(readings: seq<Reading>, dir: Reading): (raised: bool)
    requires |readings| == |Cases|
  {
    var testFailed := false;
    if DirectionalPasses(dir.attackFlag, dir.attackDirFlag, dir.moveFlag) then testFailed else true
  }

  /** As written, the run raises iff the directional check fails, whatever
      the twenty cases read. */
  lemma RaisesAsWrittenOnlyOnDirectional(readings: seq<Reading>, dir: Reading)
    requires |readings| == |Cases|
    ensures RaisesAsWritten(readings, dir) <==> !DirectionalPasses(dir.attackFlag, dir.attackDirFlag, dir.moveFlag)
  {
  }

  /** The failed flag threaded through the cases: it starts as given, and
      once a case fails it stays failed. */
  function Accumulate(failed: bool, cases: seq<Case>, readings: seq<Reading>): (r: bool)
    requires |cases| == |readings|
    ensures r <==> failed || exists i :: 0 <= i < |cases| && !CasePasses(cases[i], readings[i])
    decreases |cases|
  {
    if |cases| == 0 then failed
    else
      var r := Accumulate(failed || !CasePasses(cases[0], readings[0]), cases[1..], readings[1..]);
      assert forall i :: 1 <= i < |cases| ==> cases[i] == cases[1..][i - 1] && readings[i] == readings[1..][i - 1];
      r
  }

  /** The intended verdict: the run raises iff some case or the directional
      check failed. */
  function Raises(readings: seq<Reading>, dir: Reading): (raised: bool)
    requires |readings| == |Cases|
    ensures raised <==> (exists i :: 0 <= i < |Cases| && !CasePasses(Cases[i], readings[i]))
                        || !DirectionalPasses(dir.attackFlag, dir.attackDirFlag, dir.moveFlag)
  {
    var testFailed := Accumulate(false, Cases, readings);
    if DirectionalPasses(dir.attackFlag, dir.attackDirFlag, dir.moveFlag) then testFailed else true
  }

  /** Twenty readings that all mismatch and a passing directional reading:
      the as-written run does not raise, the intended one does. */
  lemma MismatchesGoUnreported()
    ensures var readings := seq(|Cases|, _ => Reading(None, 0, 0, 0));
            var dir := Reading(None, 0, 1, 1);
            && (forall i :: 0 <= i < |Cases| ==> !CasePasses(Cases[i], readings[i]))
            && !RaisesAsWritten(readings, dir)
            && Raises(readings, dir)
  {
    var readings := seq(|Cases|, _ => Reading(None, 0, 0, 0));
    assert !CasePasses(Cases[0], readings[0]);
  }

  /** What the test reads from a DUT that behaves as the table predicts:
      the state reached and the flag outputs unpacked from the packed
      flags. */
  function ReadingOf(out: Dut): (rd: Reading)
    ensures out.flags < 8 ==> PackFlags(rd.attackFlag, rd.attackDirFlag, rd.moveFlag) == out.flags
  {
    Reading(Some(out.state), out.flags / 4, out.flags / 2 % 2, out.flags % 2)
  }

  /** The reading after one call's actions from `d`. */
  function TableReading(c: Case, d: Dut): Reading
  {
    ReadingOf(Run(d, CaseActions(c)))
  }

  /** A DUT that behaves as the table passes every case, from any start. */
  lemma TableDutPassesEveryCase(i: nat, d: Dut)
    requires i < |Cases|
    ensures CasePasses(Cases[i], TableReading(Cases[i], d))
  {
    CaseMeetsExpectation(i, d);
  }

  /** The DUT after the calls for `cases`, one after another. */
  function AfterCases(d: Dut, cases: seq<Case>): Dut
    decreases |cases|
  {
    if |cases| == 0 then d else AfterCases(Run(d, CaseActions(cases[0])), cases[1..])
  }

  /** The readings of the calls for `cases`, each taken from the DUT the
      previous calls left behind. */
  function CaseReadings(d: Dut, cases: seq<Case>): (rs: seq<Reading>)
    ensures |rs| == |cases|
    decreases |cases|
  {
    if |cases| == 0 then []
    else [TableReading(cases[0], d)] + CaseReadings(Run(d, CaseActions(cases[0])), cases[1..])
  }

  /** Each call reads what it would read from any start: the readings of a
      sequence of calls are those of the calls run on their own. */
  lemma {:induction false} CaseReadingsAt(d: Dut, cases: seq<Case>, i: nat)
    requires i < |cases|
    ensures CaseReadings(d, cases)[i] == TableReading(cases[i], d)
    decreases |cases|
  {
    if i > 0 {
      var next := Run(d, CaseActions(cases[0]));
      CaseReadingsAt(next, cases[1..], i - 1);
      CasesAreIsolated(cases[i], next, d);
    }
  }

  /** Everything one test run reads: the twenty call readings and the
      directional reading. */
  datatype RunReadings = RunReadings(cases: seq<Reading>, dir: Reading)

  /** One whole run of the test against a DUT that behaves as the table
      predicts: two edges with nothing driven, the twenty calls in order,
      then the directional scenario on the DUT they leave. */
  function TableRun(d: Dut): (run: RunReadings)
    ensures |run.cases| == |Cases|
  {
    var start := Run(d, [Edge, Edge]);
    var end := AfterCases(start, Cases);
    RunReadings(CaseReadings(start, Cases), ReadingOf(Run(end, DirectionalActions)))
  }

  /** A DUT whose flags follow the table alone passes all twenty calls of
      the run but shows 0b001 at the directional sample point and so fails
      the directional check: both verdicts raise. Passing the run needs
      flags that respond to the attack key before the next edge. */
  lemma TableDutFailsDirectional(d: Dut)
    ensures var run := TableRun(d);
            && (forall i :: 0 <= i < |Cases| ==> CasePasses(Cases[i], run.cases[i]))
            && !DirectionalPasses(run.dir.attackFlag, run.dir.attackDirFlag, run.dir.moveFlag)
            && RaisesAsWritten(run.cases, run.dir)
            && Raises(run.cases, run.dir)
  {
    var start := Run(d, [Edge, Edge]);
    var run := TableRun(d);
    forall i | 0 <= i < |Cases|
      ensures CasePasses(Cases[i], run.cases[i])
    {
      CaseReadingsAt(start, Cases, i);
      TableDutPassesEveryCase(i, start);
    }
    TablePredictsLeftAtDirectionalSample(AfterCases(start, Cases));
  }
}
