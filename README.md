# Tabular Q-learning agent, modelled in Dafny

This project models `QAgent`, a tabular Q-learning agent. The agent keeps a
Q-table with one row per state and one column per action. Each cell estimates
the discounted return of taking that action in that state. The agent
has three operations:

- it chooses actions epsilon-greedily: a random action with probability
  `epsilon`, otherwise the first action with the largest value in the state's
  row;
- it learns with the one-step Q-learning update, moving one cell a fraction
  `lr` of the way to `reward + gamma * max_a' Q[new_state, a']`, where the
  bootstrapped term is dropped when the episode has ended;
- it decays `epsilon` geometrically, and never below the floor `eps_min`.

Everything is in `q_agent.dfy`, module `QLearning`:

- Pure functions on rows: `ArgMax` (first index of the largest value, the
  tie-break of `np.argmax`) and `MaxOf`, an independent definition of the
  largest value. `ArgMaxIsMax` ties the two together: the value at the greedy
  index is the maximum. `ArgMaxUnique` shows that `ArgMax`'s two properties
  (maximal, and strictly above every earlier entry) pick out exactly one
  index.
  `TdTarget` computes the update target as the code does: it reads the
  next row at its greedy index and multiplies by one minus the end flag.
- Epsilon decay: `DecayStep` is one step. `EpsilonAfter` is `k` steps; it is
  a helper that only names the iterate, and the lemmas state its properties.
  `Geometric` is the unfloored schedule. `Pow`, `MulMono`, `MulInUnit`,
  `MulByOne`, `ScaleDown`, `MaskedDiscount` and the other small lemmas about products are
  helpers for the proofs. The lemmas give the closed form and
  show that the rate never increases.
- `class QAgent`: the table is an `array2<real>`. The hyperparameters are
  mutable fields, and the constructors set them to the code's defaults. The
  contracts hold for any values of these fields. `UpdateActionPolicy` and
  `Learn` update state in place with `modifies` frames. `ChooseAction` only
  reads the table. Randomness is passed in as parameters: `draw` stands for
  `np.random.random()`, and `randomAction` for the output of
  `np.random.choice`.
- Two clients show what a training loop can rely on.
  `DecayRepeatedly` decays `k` times and reaches the closed form.
  `LearnScenario` starts from three states, two actions and a zero table,
  with `lr = 0.1` and `gamma = 0.9`. One rewarded step sets `Q[0,1]` to
  `0.1`, and a greedy choice in state 0 then returns action 1.

Values are Dafny `real`s, not IEEE doubles. States and actions are natural
indices. The `done` flag is a `bool`, and the code's `(1 - done)` becomes
`if done then 0.0 else 1.0`.

The assertion in `choose_action` (q_agent.py:35-36) is modelled as the error
result `Err(InvalidState)`. With an empty action space, `np.random.choice`
and `np.argmax` both raise an error. That case is the error result
`Err(EmptyActionSpace)`.

## Model

| member | source | states |
|---|---|---|
| `QLearning.Max` | q_agent.py:31 | the larger of two rates is at least each of them and is one of them, as Python's `max` |
| `QLearning.QAgent.Row` | q_agent.py:42 | `q_table[state]` is the state's row: it has `n_actions` entries and entry `j` is cell `(state, j)` |
| `QLearning.ArgMax` | q_agent.py:42 | the greedy index is in range, its value is at least every value of the row, and every earlier index holds a strictly smaller value (lowest index wins a tie) |
| `QLearning.MaxOf` | q_agent.py:45-46 | the best value of a non-empty row bounds every entry and is attained |
| `QLearning.ArgMaxUnique` | q_agent.py:42 | any index that is maximal and beats every earlier index is the one `ArgMax` returns, so the tie-break rule fixes the choice |
| `QLearning.ArgMaxIsMax` | q_agent.py:45-46 | reading the next row at its greedy index gives the row's maximum |
| `QLearning.TdTarget` | q_agent.py:45-46 | the target is exactly `reward` when the episode has ended, and `reward + gamma * max` of the next row otherwise |
| `QLearning.TdTargetExamples` | q_agent.py:46 | next row `[2, 3]` with reward 1, gamma 0.9 and not done gives target 3.7; done with reward 5 gives 5 |
| `QLearning.DecayStep` | q_agent.py:31 | one decay step never goes below the floor; it keeps a non-negative rate non-negative for a non-negative decrement; and it never increases a non-negative rate that is at or above the floor when the decrement is in [0, 1], whatever the sign of the floor |
| `QLearning.GeometricIsPow` | q_agent.py:31 | the unfloored schedule after `k` steps is the start value times the `k`-th power of the decrement |
| `QLearning.EpsilonFlooredGeometric` | q_agent.py:31 | `k` decay steps, for a decrement in [0, 1] and a start at or above the floor, equal the unfloored schedule floored once |
| `QLearning.EpsilonClosedForm` | q_agent.py:29-31 | after `k` calls, epsilon is `max(epsilon0 * eps_decrement^k, eps_min)` for any decrement in [0, 1] and any start at or above the floor |
| `QLearning.EpsilonNonIncreasing` | q_agent.py:29-31 | with a decrement in [0, 1] and a non-negative start at or above `eps_min`, the decayed rate never rises from one step to the next, stays between zero and the start, and never falls below the floor |
| `QLearning.QAgent.InitQTable` | q_agent.py:24-27 | a fresh table of `n_states` rows and `n_actions` columns with every cell equal to the initial value |
| `QLearning.QAgent.constructor` | q_agent.py:8-22 | the table has the right shape and every cell is the initial value, which defaults to `0.0`; the hyperparameters are the code's defaults |
| `QLearning.QAgent.FromTable` | q_agent.py:22 | a supplied table is used as it is, shared with the caller rather than copied |
| `QLearning.QAgent.UpdateActionPolicy` | q_agent.py:29-31 | epsilon becomes exactly `max(epsilon * eps_decrement, eps_min)`, so it is at least the floor; it does not increase when the decrement is in [0, 1] and epsilon is non-negative and at or above `eps_min`; only `epsilon` changes |
| `QLearning.QAgent.ChooseAction` | q_agent.py:33-42 | an out-of-range state is an error; with no actions it is an error; otherwise the action is in range; when `draw < epsilon` it is the random action, else the first maximal index of the state's row; no state changes |
| `QLearning.QAgent.Learn` | q_agent.py:44-48 | only `Q[state, action]` changes, to `old + lr * (td_target - old)`; the target is computed from the table before the update; every other cell keeps its value |
| `QLearning.DecayRepeatedly` | q_agent.py:29-31 | a caller that decays `k` times ends at the `k`-th iterate of the decay step, which, for a decrement in [0, 1] and a start at or above `eps_min`, is the unfloored schedule floored once; with `EpsilonClosedForm` that is `max(epsilon0 * eps_decrement^k, eps_min)` |

## Left out

- `save` and `load` (q_agent.py:50-55) are file I/O through `os.makedirs`, `np.save` and `np.load`, with no format logic of their own. So the model's table is never replaced after construction.
- `get_instruction_string` (q_agent.py:57-58) only formats epsilon for display.
- The `name` parameter and the `Agent` base class (q_agent.py:2, 10) are not part of this model; `rl_base` is not part of this model either.
- Randomness: the two draws are parameters, so nothing is claimed about how they are distributed.
- Floating point: rounding, NaN handling in `np.argmax`, and the bool-to-number coercion in `(1 - done)` are replaced by exact reals and a conditional. The table's element type is also not modelled: `np.full` (q_agent.py:26) takes its dtype from `initial_q_value`, so an integer initial value gives an integer table, and `+=` at q_agent.py:48 would then truncate every update. With exact reals the model always behaves as the float table of the default `0.0`.
- `QLearning.QAgent.FromTable`: requires the supplied table to have `n_states` rows and `n_actions` columns. The code does not check this.
- `QLearning.QAgent.Learn`: requires all three indices to be in range. The code does not validate them, and numpy would wrap a negative index or raise on an index that is too large.
- `QLearning.QAgent.ChooseAction`: requires the random action to be in the action space, standing for `np.random.choice` over `range(n_actions)`.
- `QLearning.QAgent.UpdateActionPolicy`: the non-increase promise needs a non-negative epsilon. With a negative epsilon above a negative floor, multiplying by a decrement below one moves epsilon up towards zero (epsilon -1, decrement 0.5, floor -2 gives -0.5). No sign is needed on `eps_min`.
- `QLearning.EpsilonNonIncreasing`: needs a non-negative start for the same reason, and no sign on the floor. The closed form in `EpsilonClosedForm` holds without either.
- The hyperparameter defaults (q_agent.py:14-18) appear only in the constructors' postconditions. Every other contract is stated over arbitrary `lr`, `gamma`, `eps_decrement` and `eps_min`. The floor default follows the code, 0.01.
