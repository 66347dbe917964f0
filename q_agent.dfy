/**
  A model of a tabular Q-learning agent: a table of action values with
  one row per state and one column per action, an epsilon-greedy action
  chooser, the one-step Q-learning update and a floored geometric decay
  of the exploration rate.

  Values are Dafny `real`s rather than IEEE floats. The two random draws
  the chooser makes are passed in as parameters.
 */
module QLearning {

  /** Why choosing an action can fail. */
  datatype ChooseError =
    | InvalidState       // the state index is outside [0, nStates)
    | EmptyActionSpace   // there is no action to draw or to maximise over

  datatype Result<T> = Ok(value: T) | Err(error: ChooseError)

  // ---------------------------------------------------------------------
  // Rows of the table: the greedy choice and the best value
  // ---------------------------------------------------------------------

  /** The larger of two values. */
  function Max(a: real, b: real): (m: real)
    ensures m >= a && m >= b && (m == a || m == b)
  {
    if a >= b then a else b
  }

  /** The largest value of a non-empty row, as an independent reference
      for the greedy choice. */
  function MaxOf(row: seq<real>): (m: real)
    requires |row| > 0
    ensures forall j :: 0 <= j < |row| ==> row[j] <= m
    ensures exists j :: 0 <= j < |row| && row[j] == m
  {
    if |row| == 1 then row[0]
    else
      var rest := MaxOf(row[1..]);
      assert forall j :: 1 <= j < |row| ==> row[j] == row[1..][j - 1];
      Max(row[0], rest)
  }

  /** The index of the first largest value of a non-empty row: a scan from
      left to right that moves only on a strictly larger value, so the
      lowest index wins a tie. */
  function ArgMax(row: seq<real>): (i: nat)
    requires |row| > 0
    ensures i < |row|
    ensures forall j :: 0 <= j < |row| ==> row[j] <= row[i]
    ensures forall j :: 0 <= j < i ==> row[j] < row[i]
  {
    if |row| == 1 then 0
    else
      var k := ArgMax(row[..|row| - 1]);
      if row[|row| - 1] > row[k] then |row| - 1 else k
  }

  /** The two properties of ArgMax single out one index. */
  lemma ArgMaxUnique(row: seq<real>, i: nat)
    requires i < |row|
    requires forall j :: 0 <= j < |row| ==> row[j] <= row[i]
    requires forall j :: 0 <= j < i ==> row[j] < row[i]
    ensures i == ArgMax(row)
  {
  }

  /** Reading the row at its greedy index gives the row's maximum. */
  lemma ArgMaxIsMax(row: seq<real>)
    requires |row| > 0
    ensures row[ArgMax(row)] == MaxOf(row)
  {
    var i := ArgMax(row);
    var j :| 0 <= j < |row| && row[j] == MaxOf(row);
    assert row[j] <= row[i];
  }

  // ---------------------------------------------------------------------
  // The temporal-difference target
  // ---------------------------------------------------------------------

  /** The one-step target: the reward, plus the discounted value of the
      best action in the next state unless the episode has ended. The
      next state's value is read at its greedy index and multiplied by
      one minus the end-of-episode flag. */
  function TdTarget(reward: real, gamma: real, nextRow: seq<real>, done: bool): (t: real)
    requires |nextRow| > 0
    ensures done ==> t == reward
    ensures !done ==> t == reward + gamma * MaxOf(nextRow)
  {
    ArgMaxIsMax(nextRow);
    var notDone := if done then 0.0 else 1.0;
    MaskedDiscount(gamma, nextRow[ArgMax(nextRow)], MaxOf(nextRow), notDone);
    reward + gamma * nextRow[ArgMax(nextRow)] * notDone
  }

  /** Multiplying the discounted value by a 0/1 flag drops it or keeps it.
      `best` is the same value under another name: the solver does not
      carry an equality into a product on its own, so the caller passes
      both the greedy read and `MaxOf` and the swap happens here. */
  lemma MaskedDiscount(gamma: real, value: real, best: real, flag: real)
    requires value == best && (flag == 0.0 || flag == 1.0)
    ensures flag == 0.0 ==> gamma * value * flag == 0.0
    ensures flag == 1.0 ==> gamma * value * flag == gamma * best
  {
  }

  // ---------------------------------------------------------------------
  // Exploration-rate decay
  // ---------------------------------------------------------------------

  /** One decay step: multiply by the decrement, never below the floor. */
  function DecayStep(epsilon: real, decrement: real, floor: real): (e: real)
    ensures e >= floor
    ensures 0.0 <= decrement && 0.0 <= epsilon ==> e >= 0.0
    ensures 0.0 <= decrement <= 1.0 && floor <= epsilon && 0.0 <= epsilon ==> e <= epsilon
  {
    if 0.0 <= decrement && 0.0 <= epsilon then
      ScaleDown(epsilon, decrement);
      Max(epsilon * decrement, floor)
    else
      Max(epsilon * decrement, floor)
  }

  /** The exploration rate after `k` decay steps from `epsilon0`. */
  function EpsilonAfter(epsilon0: real, decrement: real, floor: real, k: nat): (e: real)
  {
    if k == 0 then epsilon0
    else DecayStep(EpsilonAfter(epsilon0, decrement, floor, k - 1), decrement, floor)
  }

  /** The unfloored schedule: the start value scaled `k` times. */
  function Geometric(epsilon0: real, decrement: real, k: nat): (g: real)
  {
    if k == 0 then epsilon0 else Geometric(epsilon0, decrement, k - 1) * decrement
  }

  function Pow(x: real, k: nat): (p: real)
  {
    if k == 0 then 1.0 else x * Pow(x, k - 1)
  }

  // Products of reals are kept inside the small lemmas below; the solver
  // does not reliably carry equalities through a product on its own.

  /** Scaling by a non-negative factor preserves order. */
  lemma MulMono(a: real, b: real, c: real)
    requires a <= b && 0.0 <= c
    ensures a * c <= b * c
  {
    assert (b - a) * c >= 0.0;
    assert (b - a) * c == b * c - a * c;
  }

  lemma MulInUnit(a: real, b: real)
    requires 0.0 <= a <= 1.0 && 0.0 <= b <= 1.0
    ensures 0.0 <= a * b <= b
  {
    MulMono(a, 1.0, b);
    assert 1.0 * b == b;
    MulMono(0.0, a, b);
    assert 0.0 * b == 0.0;
  }

  /** A non-negative value scaled by a non-negative factor stays non-negative, and does not grow when the factor is at most one. */
  lemma ScaleDown(e: real, d: real)
    requires 0.0 <= e && 0.0 <= d
    ensures 0.0 <= e * d
    ensures d <= 1.0 ==> e * d <= e
  {
    MulMono(0.0, e, d);
    assert 0.0 * d == 0.0;
    if d <= 1.0 {
      MulMono(d, 1.0, e);
      assert d * e == e * d;
      assert 1.0 * e == e;
    }
  }

  lemma MulByOne(a: real, b: real)
    requires b == 1.0
    ensures a * b == a
  {
  }

  lemma {:induction false} PowInUnit(x: real, k: nat)
    requires 0.0 <= x <= 1.0
    ensures 0.0 <= Pow(x, k) <= 1.0
  {
    if k > 0 {
      PowInUnit(x, k - 1);
      MulInUnit(x, Pow(x, k - 1));
    }
  }

  /** The unfloored schedule is the start value times a power of the
      decrement. */
  lemma {:induction false} GeometricIsPow(epsilon0: real, decrement: real, k: nat)
    ensures Geometric(epsilon0, decrement, k) == epsilon0 * Pow(decrement, k)
  {
    if k == 0 {
      MulByOne(epsilon0, Pow(decrement, 0));
    } else {
      GeometricIsPow(epsilon0, decrement, k - 1);
      var p := Pow(decrement, k - 1);
      assert Pow(decrement, k) == decrement * p;
      assert (epsilon0 * p) * decrement == epsilon0 * (decrement * p);
    }
  }

  /** A start value at or above a negative floor stays at or above it
      when scaled by a factor in [0, 1]. */
  lemma NegativeFloorNeverReached(epsilon0: real, p: real, floor: real)
    requires 0.0 <= p <= 1.0 && floor < 0.0 && epsilon0 >= floor
    ensures epsilon0 * p >= floor
  {
    if epsilon0 < 0.0 {
      MulMono(epsilon0, 0.0, 1.0 - p);
      assert 0.0 * (1.0 - p) == 0.0;
      assert epsilon0 * (1.0 - p) <= 0.0;
      assert epsilon0 * (1.0 - p) == epsilon0 - epsilon0 * p;
      assert epsilon0 <= epsilon0 * p;
    } else {
      MulMono(0.0, epsilon0, p);
    }
  }

  lemma GeometricAboveNegativeFloor(epsilon0: real, decrement: real, floor: real, k: nat)
    requires 0.0 <= decrement <= 1.0 && floor < 0.0 && epsilon0 >= floor
    ensures Geometric(epsilon0, decrement, k) >= floor
  {
    GeometricIsPow(epsilon0, decrement, k);
    PowInUnit(decrement, k);
    NegativeFloorNeverReached(epsilon0, Pow(decrement, k), floor);
  }

  /** Decaying a floored value is flooring the decayed value, as long as
      the value is not below a negative floor. */
  lemma DecayOfFloored(prev: real, e: real, next: real, decrement: real, floor: real)
    requires 0.0 <= decrement <= 1.0
    requires prev == Max(e, floor) && next == e * decrement
    requires e >= floor || floor >= 0.0
    ensures DecayStep(prev, decrement, floor) == Max(next, floor)
  {
    if e < floor {
      MulMono(e, floor, decrement);
      MulMono(decrement, 1.0, floor);
    }
  }

  /** Decaying step by step is flooring the unfloored schedule once. */
  lemma {:induction false} EpsilonFlooredGeometric(epsilon0: real, decrement: real, floor: real, k: nat)
    requires 0.0 <= decrement <= 1.0
    requires epsilon0 >= floor
    ensures EpsilonAfter(epsilon0, decrement, floor, k) == Max(Geometric(epsilon0, decrement, k), floor)
  {
    if k > 0 {
      EpsilonFlooredGeometric(epsilon0, decrement, floor, k - 1);
      if floor < 0.0 {
        GeometricAboveNegativeFloor(epsilon0, decrement, floor, k - 1);
      }
      DecayOfFloored(EpsilonAfter(epsilon0, decrement, floor, k - 1), Geometric(epsilon0, decrement, k - 1),
                     Geometric(epsilon0, decrement, k), decrement, floor);
    }
  }

  /** After `k` steps the exploration rate is the start value times the
      `k`-th power of the decrement, floored. */
  lemma EpsilonClosedForm(epsilon0: real, decrement: real, floor: real, k: nat)
    requires 0.0 <= decrement <= 1.0
    requires epsilon0 >= floor
    ensures EpsilonAfter(epsilon0, decrement, floor, k) == Max(epsilon0 * Pow(decrement, k), floor)
  {
    EpsilonFlooredGeometric(epsilon0, decrement, floor, k);
    GeometricIsPow(epsilon0, decrement, k);
  }

  /** Decay never increases the exploration rate, and never takes it
      below the floor. */
  lemma {:induction false} EpsilonNonIncreasing(epsilon0: real, decrement: real, floor: real, k: nat)
    requires 0.0 <= decrement <= 1.0
    requires floor <= epsilon0 && 0.0 <= epsilon0
    ensures floor <= EpsilonAfter(epsilon0, decrement, floor, k + 1) <= EpsilonAfter(epsilon0, decrement, floor, k)
    ensures 0.0 <= EpsilonAfter(epsilon0, decrement, floor, k) <= epsilon0
  {
    if k > 0 {
      EpsilonNonIncreasing(epsilon0, decrement, floor, k - 1);
    }
  }

  // ---------------------------------------------------------------------
  // The agent
  // ---------------------------------------------------------------------

  class QAgent {
    var lr: real            // learning rate
    var gamma: real         // discount factor
    var epsilon: real       // probability of a random action
    var epsDecrement: real  // factor applied to epsilon by each decay step
    var epsMin: real        // floor below which epsilon is not decreased

    const nStates: nat
    const nActions: nat     // the action space is [0, nActions)
    var q: array2<real>     // q[s, a]: estimated return of action a in state s

    /** The table has one row per state and one column per action. */
    ghost predicate Valid()
      reads this
    {
      q.Length0 == nStates && q.Length1 == nActions
    }

    /** The row of state `s`, as a sequence. */
    function Row(s: nat): (row: seq<real>)
      reads this, q
      requires Valid() && s < nStates
      ensures |row| == nActions
      ensures forall j :: 0 <= j < nActions ==> row[j] == q[s, j]
    {
      var table := q;
      seq(nActions, j requires 0 <= j < nActions && s < table.Length0 && j < table.Length1 reads table => table[s, j])
    }

    /** A fresh table of `nStates` rows and `nActions` columns, every
        cell holding `initialQ`. */
    static method InitQTable(nStates: nat, nActions: nat, initialQ: real) returns (t: array2<real>)
      ensures fresh(t)
      ensures t.Length0 == nStates && t.Length1 == nActions
      ensures forall s, a :: 0 <= s < nStates && 0 <= a < nActions ==> t[s, a] == initialQ
    {
      t := new real[nStates, nActions]((s, a) => initialQ);
    }

    /** An agent with a fresh table filled with `initialQ` and the default
        hyperparameters. */
    constructor (nStates: nat, nActions: nat, initialQ: real := 0.0)
      ensures Valid() && fresh(q)
      ensures this.nStates == nStates && this.nActions == nActions
      ensures forall s, a :: 0 <= s < nStates && 0 <= a < nActions ==> q[s, a] == initialQ
      ensures lr == 0.05 && gamma == 0.99
      ensures epsilon == 1.0 && epsDecrement == 0.995 && epsMin == 0.01
    {
      lr, gamma := 0.05, 0.99;
      epsilon, epsDecrement, epsMin := 1.0, 0.995, 0.01;
      this.nStates, this.nActions := nStates, nActions;
      var table := InitQTable(nStates, nActions, initialQ);
      q := table;
    }

    /** An agent that takes over a table the caller supplies (no copy). */
    constructor FromTable(nStates: nat, nActions: nat, table: array2<real>)
      requires table.Length0 == nStates && table.Length1 == nActions
      ensures Valid() && q == table
      ensures this.nStates == nStates && this.nActions == nActions
      ensures lr == 0.05 && gamma == 0.99
      ensures epsilon == 1.0 && epsDecrement == 0.995 && epsMin == 0.01
    {
      lr, gamma := 0.05, 0.99;
      epsilon, epsDecrement, epsMin := 1.0, 0.995, 0.01;
      this.nStates, this.nActions := nStates, nActions;
      q := table;
    }

    /** One decay step of the exploration rate; nothing else changes. */
    method UpdateActionPolicy()
      modifies this`epsilon
      ensures epsilon == DecayStep(old(epsilon), epsDecrement, epsMin)
      ensures epsilon == Max(old(epsilon) * epsDecrement, epsMin)
      ensures epsilon >= epsMin
      ensures 0.0 <= epsDecrement <= 1.0 && epsMin <= old(epsilon) && 0.0 <= old(epsilon) ==> epsilon <= old(epsilon)
    {
      epsilon := Max(epsilon * epsDecrement, epsMin);
    }

    /** Epsilon-greedy choice. `draw` stands for the uniform draw in
        [0, 1) and `randomAction` for the uniformly drawn action; the
        random action is taken when `draw < epsilon`, the first best
        action of the state's row otherwise. The table is only read. */
    method ChooseAction(state: int, draw: real, randomAction: nat) returns (r: Result<nat>)
      requires Valid()
      requires 0.0 <= draw < 1.0
      requires nActions == 0 || randomAction < nActions
      ensures r.Err? <==> !(0 <= state < nStates) || nActions == 0
      ensures !(0 <= state < nStates) <==> r == Err(InvalidState)
      ensures 0 <= state < nStates && nActions == 0 <==> r == Err(EmptyActionSpace)
      ensures r.Ok? ==> r.value < nActions
      ensures r.Ok? && draw < epsilon ==> r.value == randomAction
      ensures r.Ok? && draw >= epsilon ==>
                (forall j :: 0 <= j < nActions ==> q[state, j] <= q[state, r.value]) &&
                (forall j :: 0 <= j < r.value ==> q[state, j] < q[state, r.value])
    {
      if !(0 <= state < nStates) {
        return Err(InvalidState);
      }
      if nActions == 0 {
        return Err(EmptyActionSpace);
      }
      if draw < epsilon {
        r := Ok(randomAction);
      } else {
        r := Ok(ArgMax(Row(state)));
      }
    }

    /** The one-step Q-learning update: only the cell of (`state`,
        `action`) moves, a fraction `lr` of the way to the target, which
        is computed from the table as it was before the update. */
    method Learn(state: nat, action: nat, reward: real, newState: nat, done: bool)
      requires Valid()
      requires state < nStates && action < nActions && newState < nStates
      modifies q
      ensures Valid()
      ensures q[state, action] ==
                old(q[state, action]) +
                lr * (TdTarget(reward, gamma, old(Row(newState)), done) - old(q[state, action]))
      ensures forall s, a :: 0 <= s < nStates && 0 <= a < nActions && (s != state || a != action) ==>
                q[s, a] == old(q[s, a])
    {
      var tdTarget := TdTarget(reward, gamma, Row(newState), done);
      var tdError := tdTarget - q[state, action];
      q[state, action] := q[state, action] + lr * tdError;
    }
  }

  // ---------------------------------------------------------------------
  // Clients: what a training loop can rely on
  // ---------------------------------------------------------------------

  /** A training loop that decays the exploration rate `k` times ends at
      the floored `k`-th power of the decrement. */
  method DecayRepeatedly(agent: QAgent, k: nat)
    requires 0.0 <= agent.epsDecrement <= 1.0
    requires agent.epsilon >= agent.epsMin
    modifies agent`epsilon
    ensures agent.epsilon == EpsilonAfter(old(agent.epsilon), agent.epsDecrement, agent.epsMin, k)
    ensures agent.epsilon == Max(Geometric(old(agent.epsilon), agent.epsDecrement, k), agent.epsMin)
  {
    ghost var epsilon0 := agent.epsilon;
    var i := 0;
    while i < k
      invariant i <= k
      invariant agent.epsilon == EpsilonAfter(epsilon0, agent.epsDecrement, agent.epsMin, i)
    {
      agent.UpdateActionPolicy();
      i := i + 1;
    }
    EpsilonFlooredGeometric(epsilon0, agent.epsDecrement, agent.epsMin, k);
  }

  /** Three states, two actions, a zero table, learning rate 0.1 and
      discount 0.9: one rewarded step from state 0 by action 1 sets that
      cell to 0.1 and nothing else. A greedy choice in state 0 then picks
      action 1. */
  method LearnScenario()
  {
    var agent := new QAgent(3, 2);
    agent.lr, agent.gamma := 0.1, 0.9;
    agent.Learn(0, 1, 1.0, 1, false);
    assert agent.Row(1) == [0.0, 0.0];
    assert agent.q[0, 1] == 0.1;
    assert agent.q[0, 0] == 0.0;
    agent.epsilon := 0.0;
    var r := agent.ChooseAction(0, 0.5, 0);
    assert r.Ok? && agent.q[0, 1] <= agent.q[0, r.value];
    assert r == Ok(1);
  }

  /** The bootstrapped target reads the best value of the next state, and
      an ended episode's target is the reward alone. */
  lemma TdTargetExamples()
    ensures TdTarget(1.0, 0.9, [2.0, 3.0], false) == 3.7
    ensures TdTarget(5.0, 0.99, [0.0, 0.0], true) == 5.0
  {
    assert MaxOf([2.0, 3.0]) == 3.0 by {
      assert [2.0, 3.0][1..] == [3.0];
    }
  }
}
