# Reflex capture-the-flag agents, modelled in Dafny

This project models the decision engine of a two-agent capture-the-flag
Pacman team (`myTeam.py`). Each turn an agent looks one ply ahead. For
every legal action it takes the successor state, extracts a small map of
named features, and scores it as the dot product with a fixed weight table.
It then returns a best-scoring action, chosen at random among ties. When at
most two enemy pellets are left, it instead retreats: it takes the first
action whose successor is nearest to its starting position.

There are three agent classes:

- `ReflexCaptureAgent` values a move by the successor's score.
- `StallReflexAgent` switches between offense, defense, and a "winning"
  defense used once the score exceeds 5. The switch depends on the score,
  the food margin in the successor, and an exact own-food count of 2.
- `DefenseReflexAgent` always defends.

The model abstracts away the game engine. A successor is a record
(`GameView.Successor`) holding:

- whether our agent is a pacman there;
- the successor's score;
- the maze distance from our successor position to each enemy pellet and
  to each own pellet;
- each opponent's pacman flag and distance, or `None` when not visible;
- the maze distance from the agent's recorded start.

Food counts are the lengths of these distance lists. Feature vectors are
`map<Feature, real>`, where an absent key reads as 0, as `util.Counter` does.

Files and modules:

- `game_view.dfy`: module `Wrappers` (Option) and module `GameView`. It holds
  the successor record, Python's `min`, and the visible-invader and
  visible-ghost lists.
- `features.dfy`: module `Features`. It holds the modes, the three
  `get_features` (`ReflexFeatures`, `StallFeatures`, `DefenseFeatures`), the
  weight tables (`Weights`), and the lemmas that state what the features mean.
- `evaluation.dfy`: module `Evaluation`. It holds `evaluate` as
  `util.Counter`'s `*`, which walks the smaller map and skips keys missing
  from the other. It also holds the lemmas about values.
- `selection.dfy`: module `Selection`. It holds `choose_action` as the method
  `ChooseAction`. The random choice among the best actions is in
  `RandomBest`, and the retreat loop is in `Retreat`. `max_value` and
  `best_actions` are computed only in the branch that uses them. They are
  pure, so this does not change the result.

Points of the code that the model keeps as written:

- Offense needs own food ≠ 2 (myTeam.py:168). There is no lower floor, so
  0 or 1 own pellet still allows offense.
- The defensive objective goes straight from the nearest invader to the
  nearest own pellet (myTeam.py:218-227, 236-244, 277-285). Capsules are
  never read.
- Fear is 1 over the nearest visible ghost (myTeam.py:189-193, 212-217),
  whether or not that ghost is scared. The scared timer is never read.
- Fear divides by the ghost distance with no guard (myTeam.py:193, 217).
  A ghost at distance 0 raises ZeroDivisionError, so the model requires
  that distance to be positive where fear is computed.

## Model

| member | source | states |
|---|---|---|
| `GameView.MinOf` | myTeam.py:180 | the minimum of a non-empty distance list is one of its elements and no larger than any of them |
| `GameView.VisibleDists` | myTeam.py:182-187 | the ghost (or invader) list holds exactly the distances of the visible opponents of that kind, and is no longer than the opponent list |
| `GameView.InvadersCount` | myTeam.py:156-157 | the invaders list has one entry per visible opponent pacman, so num_invaders counts them |
| `Features.Reciprocal` | myTeam.py:193 | fear 1/d for a positive integer distance lies in (0, 1] |
| `Features.NearestObjectivePrefersInvaders` | myTeam.py:218-227 | the defensive objective is the distance to the nearest visible invader if there is one, otherwise the distance to the nearest own pellet |
| `Features.DefenseModeHasFood` | myTeam.py:163-168 | the score ≤ 5 defense branch is taken only with exactly 2 own pellets or a margin of at least 5, so own food is never empty there |
| `Features.OffenseFeatures` | myTeam.py:163-176 | on_defense is 0 exactly when score ≤ 5, own minus enemy food < 5 and own food ≠ 2, and is otherwise 1; in offense successor_score is the enemy food count and num_invaders is 0 |
| `Features.OffenseObjective` | myTeam.py:178-195 | in offense, objective_distance is present exactly when enemy food remains, and is then the distance to the nearest enemy pellet |
| `Features.DefenseBranchFeatures` | myTeam.py:197-227 | in the score ≤ 5 defense branch, on_defense is 1, successor_score is 0 and num_invaders counts the visible invaders; objective_distance is present exactly when the agent is a pacman, and then prefers the nearest invader to the nearest own pellet |
| `Features.WinningFeatures` | myTeam.py:229-244 | above score 5, on_defense is 1, successor_score and fear are 0, and num_invaders counts the visible invaders; the objective is the nearest invader, or the nearest own pellet when none is visible |
| `Features.StallFear` | myTeam.py:178-217 | fear lies in [0, 1]; it is positive exactly when score ≤ 5, the agent is a pacman, a ghost is visible and the branch computes it (defense, or offense with enemy food left); it is then 1 over the nearest ghost distance |
| `Features.StallStop` | myTeam.py:245-251 | the stop key is present exactly for STOP, with value 1 in offense and 0 in defense |
| `Features.DefenseAgentFeatures` | myTeam.py:260-293 | DefenseReflexAgent has on_defense 1 and num_invaders equal to the visible invaders; it never sets successor_score or fear; stop is 0 on STOP and absent otherwise; the objective prefers the nearest invader to the nearest own pellet |
| `Features.MarginNineDefends` | myTeam.py:163-168 | with score 0, ten own pellets and one enemy pellet, the margin 9 is not below 5, so the agent defends |
| `Features.MarginTwoAttacks` | myTeam.py:163-172 | with score 0, three own pellets and one enemy pellet, the agent attacks with successor_score 1 |
| `Evaluation.DotOverSymmetric` | myTeam.py:119 | the Counter dot product does not depend on the order of its operands |
| `Evaluation.DotOverChange` | myTeam.py:119 | two feature maps that agree on every key but one have dot products differing by the difference at that key times its weight |
| `Evaluation.DotOverUpdate` | myTeam.py:119 | changing one feature moves the dot product by the change times that key's weight, with absent keys read as 0 |
| `Evaluation.EvaluateIsDot` | myTeam.py:113-119 | evaluate, which walks the smaller map, equals the dot product of the features with the weights |
| `Evaluation.EvaluateExpanded` | myTeam.py:113-119 | evaluate is the sum over all feature names of feature × weight, where a key missing from either map contributes 0 |
| `Evaluation.EvaluateUpdate` | myTeam.py:113-119 | a feature the weights do not mention never changes the value; one they mention changes it by the change times the weight |
| `Evaluation.InvaderPenalty` | myTeam.py:254-257 | with the StallReflexAgent or DefenseReflexAgent weights, raising num_invaders by 1 lowers the value by 1000 |
| `Evaluation.ReflexValue` | myTeam.py:121-135 | the base agent values a move by the score of its successor |
| `Evaluation.DefendingValue` | myTeam.py:295-297 | while defending (DefenseReflexAgent, or StallReflexAgent above score 5) a move is worth 100, minus its objective distance, minus 1000 per visible invader |
| `Evaluation.CloserToInvaderPreferred` | myTeam.py:277-280 | while defending, with the same move and invader count, a successor nearer the nearest invader is valued strictly higher |
| `Selection.MaxOf` | myTeam.py:82 | max_value is one of the values and no value exceeds it |
| `Selection.BestActions` | myTeam.py:83 | best_actions holds exactly the actions whose value equals the given value |
| `Selection.RandomBest` | myTeam.py:82-99 | the ordinary branch returns one of the legal actions, and that action's value is at least every other action's value |
| `Selection.Retreat` | myTeam.py:87-97 | the retreat loop returns the first action whose successor is nearest the start, provided it is nearer than 9999; it returns None exactly when no successor is |
| `Selection.FirstNearestUnique` | myTeam.py:94-96 | the strict comparison makes the retreat choice unique: ties keep the first action |
| `Selection.ChooseAction` | myTeam.py:71-99 | with more than 2 enemy pellets left, the result is a legal action whose value is the maximum; with at most 2 left, it is the first legal action nearest the start, or None when none is nearer than 9999 |

## Left out

- `create_team` (myTeam.py:35-51) is not modelled. It builds the agents by `eval` on class names. The model picks the class with the `Role` datatype instead.
- The `print` calls (myTeam.py:166, 169, 198, 230) are console output and are left out.
- `get_successor` (myTeam.py:101-111) is not modelled. Each candidate's successor, with half steps already completed, is an input.
- The game engine calls are not modelled: `generate_successor`, `get_maze_distance`, `get_food`, `get_food_you_are_defending`, `get_agent_state`, `get_opponents` and `get_score`. Their results are the fields of `Successor` and the `score` and `foodLeft` parameters.
- `util.Counter` is not part of this model. Its dot product and its default of 0 are modelled as described above. Reading a missing key also inserts it into the Counter. The model leaves this out because it never changes a value here: on_defense, the only key read before the return, is always set.
- `register_initial_state` (myTeam.py:67-69) is not modelled. The recorded start is only visible through each successor's `startDist`.
- The locals `cur_enemy_food` and `cur_my_food` (myTeam.py:149-150) are dead values and are left out.
- The entropy source behind `random.choice` is not modelled. The model makes an unspecified choice among the best actions, and `ChooseAction` promises only membership and maximality.
- Python exceptions become preconditions. `min([])` on an empty own-food list becomes `StallDefined` / `DefenseDefined`. Division by a zero ghost distance becomes `GhostsApart`.
- ChooseAction requires a non-empty `cs` in place of the `ValueError` that `max(values)` raises on an empty list (myTeam.py:82). The game always lists STOP as a legal action, so that list is never empty.
- Feature values and evaluate are exact reals, not IEEE doubles: `1/d` (myTeam.py:193, 217) and the weighted sum are not rounded, so the tie test at myTeam.py:83 is real equality.
- Capsules and scared timers are not modelled, because the code never reads them.
