/** The character FSM as the game clock generator test expects it to behave:
    five states, four key combinations driven onto the KEY port, and the
    table of twenty expected transitions with their packed output flags
    (ATTACK << 2 | ATTACK_DIR << 1 | MOVE). The flag values are written in
    decimal: 0 is 0b000, 1 is 0b001 (MOVE) and 4 is 0b100 (ATTACK). */
module GameFsm {

  datatype State = Idle | MoveLeft | MoveRight | AttackStart | AttackActive

  /** The key combinations the test drives, as the logical (active-high)
      vector [LEFT, ATTACK, RIGHT]: none, [1,0,0], [0,1,0] and [0,0,1]. */
  datatype Key = NoKey | LeftKey | AttackKey | RightKey

  /** The vector `set_key` receives for a key combination. */
  function KeyVector(k: Key): (v: seq<int>)
    ensures |v| == 3
    ensures forall i :: 0 <= i < 3 ==> v[i] == 0 || v[i] == 1
    ensures v[0] + v[1] + v[2] <= 1
  {
    match k
    case NoKey => [0, 0, 0]
    case LeftKey => [1, 0, 0]
    case AttackKey => [0, 1, 0]
    case RightKey => [0, 0, 1]
  }

  /** Distinct key combinations drive distinct vectors, so a key is
      recovered from what is driven. */
  lemma KeyVectorInjective(k: Key, k': Key)
    requires KeyVector(k) == KeyVector(k')
    ensures k == k'
  {
    assert KeyVector(k)[0] == KeyVector(k')[0];
    assert KeyVector(k)[1] == KeyVector(k')[1];
    assert KeyVector(k)[2] == KeyVector(k')[2];
  }

  /** Expected result of one clock edge: the next state and the packed
      flags then shown. */
  datatype Expectation = Expectation(next: State, flags: nat)

  /** The transition table as a total step function. A moving or idle
      character follows the key; an attack winds up for one edge and then
      resolves to idle, whatever is pressed. */
  function Step(s: State, k: Key): (e: Expectation)
    ensures e.flags == StateFlags(e.next)
    ensures (s == AttackStart || s == AttackActive) ==> e.next != s && e.next != AttackStart
  {
    match s
    case AttackStart => Expectation(AttackActive, 4)
    case AttackActive => Expectation(Idle, 0)
    case _ =>
      match k
      case NoKey => Expectation(Idle, 0)
      case LeftKey => Expectation(MoveLeft, 1)
      case AttackKey => Expectation(AttackStart, 4)
      case RightKey => Expectation(MoveRight, 1)
  }

  /** One `Test_State` call: the initial state, the key under test, and
      the state and flags expected one edge later. */
  datatype Case = Case(initial: State, key: Key, expected: State, flags: nat)

  /** The twenty `Test_State` calls, in the order the test issues them. */
  const Cases: seq<Case> := [
    Case(Idle, NoKey, Idle, 0),
    Case(Idle, LeftKey, MoveLeft, 1),
    Case(Idle, AttackKey, AttackStart, 4),
    Case(Idle, RightKey, MoveRight, 1),

    Case(MoveLeft, NoKey, Idle, 0),
    Case(MoveLeft, LeftKey, MoveLeft, 1),
    Case(MoveLeft, AttackKey, AttackStart, 4),
    Case(MoveLeft, RightKey, MoveRight, 1),

    Case(MoveRight, NoKey, Idle, 0),
    Case(MoveRight, LeftKey, MoveLeft, 1),
    Case(MoveRight, AttackKey, AttackStart, 4),
    Case(MoveRight, RightKey, MoveRight, 1),

    Case(AttackStart, NoKey, AttackActive, 4),
    Case(AttackStart, LeftKey, AttackActive, 4),
    Case(AttackStart, AttackKey, AttackActive, 4),
    Case(AttackStart, RightKey, AttackActive, 4),

    Case(AttackActive, NoKey, Idle, 0),
    Case(AttackActive, LeftKey, Idle, 0),
    Case(AttackActive, AttackKey, Idle, 0),
    Case(AttackActive, RightKey, Idle, 0)
  ]

  function StateIndex(s: State): (n: nat)
    ensures n < 5
  {
    match s
    case Idle => 0
    case MoveLeft => 1
    case MoveRight => 2
    case AttackStart => 3
    case AttackActive => 4
  }

  function KeyIndex(k: Key): (n: nat)
    ensures n < 4
  {
    match k
    case NoKey => 0
    case LeftKey => 1
    case AttackKey => 2
    case RightKey => 3
  }

  /** Where the case for (s, k) sits in the call order: grouped by initial
      state, and within a group in the key order none, left, attack, right. */
  function CaseIndex(s: State, k: Key): (i: nat)
    ensures i < |Cases|
  {
    4 * StateIndex(s) + KeyIndex(k)
  }

  /** Every (state, key) pair is exercised, by the call at CaseIndex, and
      the calls exercise pairwise distinct pairs: the table is complete and has no
      duplicate row. */
  lemma CasesEnumerateTable(s: State, k: Key)
    ensures Cases[CaseIndex(s, k)].initial == s
    ensures Cases[CaseIndex(s, k)].key == k
  {
  }

  lemma CasesAreDistinct(i: nat)
    requires i < |Cases|
    ensures CaseIndex(Cases[i].initial, Cases[i].key) == i
  {
  }

  /** The step function agrees with every expectation the test states. */
  lemma StepMatchesCases(i: nat)
    requires i < |Cases|
    ensures Step(Cases[i].initial, Cases[i].key) == Expectation(Cases[i].expected, Cases[i].flags)
  {
  }

  /** From IDLE, LEFT and RIGHT the outcome depends on the key alone. */
  lemma MovementFollowsKey(s: State, k: Key)
    requires s == Idle || s == MoveLeft || s == MoveRight
    ensures Step(s, k) == Step(Idle, k)
    ensures k == NoKey ==> Step(s, k) == Expectation(Idle, 0)
    ensures k == LeftKey ==> Step(s, k) == Expectation(MoveLeft, 1)
    ensures k == AttackKey ==> Step(s, k) == Expectation(AttackStart, 4)
    ensures k == RightKey ==> Step(s, k) == Expectation(MoveRight, 1)
  {
  }

  /** An attack ignores the keys: it winds up to ATTACK_ACTIVE and then
      returns to IDLE. */
  lemma AttackIgnoresKeys(k: Key)
    ensures Step(AttackStart, k) == Expectation(AttackActive, 4)
    ensures Step(AttackActive, k) == Expectation(Idle, 0)
  {
  }

  /** The flags each state shows: MOVE while moving, ATTACK throughout the
      attack, and ATTACK_DIR never. */
  function StateFlags(s: State): (f: nat)
    ensures f < 8 && f / 2 % 2 == 0
    ensures f % 2 == 1 <==> s == MoveLeft || s == MoveRight
    ensures f / 4 == 1 <==> s == AttackStart || s == AttackActive
  {
    match s
    case Idle => 0
    case MoveLeft | MoveRight => 1
    case AttackStart | AttackActive => 4
  }

  /** RIGHT and LEFT behave identically under every key. */
  lemma RightRowsEqualLeftRows(k: Key)
    ensures Step(MoveRight, k) == Step(MoveLeft, k)
  {
  }
}
