# Smartcab learning agent: value table and action selector

This project models the tabular Q-learning agent of the smartcab project
(`projects/smartcab/smartcab/agent.py`) in Dafny and proves properties of it.
The agent drives a cab through a grid world. It keeps a value table keyed by
`(state, action)` and picks actions greedily from it.

- **Value table.** `LearningAgent`'s constructor fills the table through the
  source's six nested loops. It covers both light colours, and oncoming, left,
  right, waypoint and action each drawn from the environment's
  `valid_actions`. Every key maps to negative infinity. Each inner loop is one
  `Fill…` method, so each loop has its own invariant.
- **Selector.** `Argmax` is the function nested in `update`, kept as its
  loop. It scans the valid actions in order and keeps an action only when its
  value is strictly greater than the best so far. If the best value is
  negative, it returns the planner's waypoint instead. A missing key is the
  `KeyError` that the dictionary lookup raises. The method is proved to
  return `Select`, a fold (`Scan`) over prefixes of the valid actions. The
  lemmas about `Scan` and `Select` state what the scan means: the first
  missing key, the waypoint fallback, and the first maximal position.
- **Trial reset.** `Reset` zeroes the accumulated reward.
- **Tick.** `UpdateAsWritten` and `Update` build the state, remember the
  planner's waypoint and call the selector. The action they return is the one
  the tick hands to the environment.

Values are `NegInf | Finite(real)`, not floats. The code only compares them,
with `>` and `< 0.0`. The action type is a type parameter. `valid_actions` is
the sequence given to the constructor. The planner's waypoint and the
environment's percept and deadline are parameters of the tick.

`agent.py` has no value update and no learning-rate or discount decay. It
accumulates no reward either: `total_reward` is only ever set to `0.0`. So
nothing writes the table after construction. The model states this as the
class invariant `Valid()`. It also proves the consequence: the corrected tick
always follows the planner, because every in-domain state holds only
negative infinity.

## Model

| member | source | states |
|---|---|---|
| `Agent.LearningAgent.constructor` | projects/smartcab/smartcab/agent.py:14-26 | the table holds exactly the keys `(((light, oncoming, left, right), waypoint), action)` with light red or green and the rest drawn from `valid_actions`, each mapped to negative infinity; `total_reward` is 0.0 |
| `Agent.LearningAgent.FillOncomings` | projects/smartcab/smartcab/agent.py:20 | the loop over oncoming traffic adds exactly the keys with the given light, and every entry stays negative infinity |
| `Agent.LearningAgent.FillLefts` | projects/smartcab/smartcab/agent.py:21 | the loop over left traffic adds exactly the keys with the given light and oncoming traffic |
| `Agent.LearningAgent.FillRights` | projects/smartcab/smartcab/agent.py:22 | the loop over right traffic adds exactly the keys with the given light, oncoming and left traffic |
| `Agent.LearningAgent.FillWaypoints` | projects/smartcab/smartcab/agent.py:23-24 | the loop over waypoints adds exactly the keys of the states `((light, oncoming, left, right), waypoint)` |
| `Agent.LearningAgent.FillActions` | projects/smartcab/smartcab/agent.py:25-26 | the innermost loop adds `(state, action)` for every valid action, all negative infinity, and keeps every earlier key |
| `Agent.InitialTableSize` | projects/smartcab/smartcab/agent.py:19-26 | with distinct valid actions the filled table has exactly 2·n^5 entries, n = number of valid actions |
| `Agent.Scan` | projects/smartcab/smartcab/agent.py:51-57 | after a prefix of the scan the best action is unset exactly while the best value is negative infinity, and otherwise is a valid action |
| `Agent.Select` | projects/smartcab/smartcab/agent.py:51-64 | the selector never returns an action other than the waypoint or a valid action |
| `Agent.MissingPersists` | projects/smartcab/smartcab/agent.py:54-56 | once a lookup raises `KeyError`, the rest of the scan cannot change the outcome |
| `Agent.ScanMissing` | projects/smartcab/smartcab/agent.py:54-56 | the scan of the first n actions raises exactly when one of their keys is absent, and then reports the first absent key in scan order |
| `Agent.ScanBest` | projects/smartcab/smartcab/agent.py:51-57 | with the first n keys present, an unset best action means every value seen is negative infinity; otherwise the best action is at the first position whose value is at least every value seen and strictly above every earlier one (strict `>` keeps the first of equal values), and the best value is that position's value |
| `Agent.SelectKeyError` | projects/smartcab/smartcab/agent.py:51-64 | the selector raises `KeyError` exactly when some `(state, action)` key is missing, carrying the first missing key in scan order |
| `Agent.SelectFallback` | projects/smartcab/smartcab/agent.py:60-61 | when every value is negative (all negative infinity, or no valid actions at all) the selector returns the waypoint |
| `Agent.FirstMaxExists` | projects/smartcab/smartcab/agent.py:53-57 | with at least one valid action and all keys present, a first maximal position exists |
| `Agent.SelectFirstMax` | projects/smartcab/smartcab/agent.py:53-64 | when some value is non-negative, the first maximal position holds a non-negative value and the selector returns the action there |
| `Agent.Argmax` | projects/smartcab/smartcab/agent.py:50-64 | the selector loop returns exactly what `Select` specifies, including the `KeyError` raised by the first missing lookup |
| `Agent.InitialTableDefersToPlanner` | projects/smartcab/smartcab/agent.py:19-26 | on the filled table every in-domain state has all its keys and only negative values, so the selector returns the waypoint |
| `Agent.OutOfDomainMissing` | projects/smartcab/smartcab/agent.py:56 | a state whose percept or waypoint is not a valid action has no key in the filled table, so its lookup raises |
| `Agent.LearningAgent.Reset` | projects/smartcab/smartcab/agent.py:29-32 | `total_reward` becomes 0.0 and nothing else changes; the post-state does not depend on the old reward, so resetting twice equals resetting once |
| `Agent.LearningAgent.UpdateAsWritten` | projects/smartcab/smartcab/agent.py:36-66 | the tick as written: the state carries the deadline, so the selection raises `KeyError` on the key for the first valid action whenever there is one; the table is unchanged |
| `Agent.LearningAgent.Update` | projects/smartcab/smartcab/agent.py:36-66 | the tick with the state shaped like the keys: `KeyError` exactly when there are valid actions and the percept or waypoint is outside them; otherwise the waypoint; the table is unchanged |

## Findings

| source | as written | input that shows it | evidently intended | confidence | as-written member | corrected member |
|---|---|---|---|---|---|---|
| projects/smartcab/smartcab/agent.py:42 | the state is `(inputs_tuple, next_waypoint, deadline)`, but the table's keys were built as `((light, oncoming, left, right), waypoint)` at line 24, so the lookup at line 56 raises `KeyError` on every tick | any tick with a non-empty `valid_actions`, e.g. light red, no traffic, waypoint forward, deadline 20 | the state `(inputs_tuple, next_waypoint)` without the deadline, as the key shape of line 24 | high; not executed | `Agent.LearningAgent.UpdateAsWritten` | `Agent.LearningAgent.Update` |

## Left out

- The route planner, the environment and the simulator are not part of this model. `planner.route_to` (line 30), `planner.next_waypoint`, `env.sense` and `env.get_deadline` (lines 36-38) and `env.act` (line 67) are external calls. Their results are the tick's parameters, and the reward from `env.act` is not modelled.
- Reset: takes no destination, because its only use is the call into the planner at line 30.
- The agent's colour and planner fields (lines 11-12) are display and collaborator wiring.
- The debug `print` at line 69 is left out. It is Python 2 I/O, and it names `action`, which exists only in commented-out code (line 45), so it would raise `NameError`.
- The `random` import and the commented-out random policy (lines 1, 45, 48) are not live code.
- `run()` and the simulator loop (lines 71-89) are orchestration and display.
- `tuple(inputs.values())` (line 41) depends on the environment's dictionary order. The model takes the percept as the ordered record `(light, oncoming, left, right)`.
- IEEE floating point is left out. Values are negative infinity or an exact real, which is all that the comparisons in the code need.
