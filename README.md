# Gridworld MDP: value iteration and episode returns

This models the core of a small reinforcement-learning repository. A 5×5
gridworld has:

- a start cell (0,0);
- a goal (4,4) worth +10;
- a water cell (4,2) worth −10;
- two obstacles, (2,2) and (3,2).

Moving off the grid or into an obstacle leaves the agent where it is and
costs −1. The repository repeats the same core in six Python scripts, and the
model states each piece once:

- **Grid**: the constants, `inBounds`, `isValidState` and the reward table
  (`rewardFunction` / `initRewardFunction`).
- **Moves**: the two transition functions. One is `takeAction`, used by the
  value iteration scripts with actions `U D L R N`. The other is `makeAction`,
  used by the episode scripts with actions `up down left right`. The module
  also covers `goLeft` / `goRight` and `getActionSpace`.
- **Bellman**: the four-outcome backup `calculateValue`, with its
  probabilities 0.8 / 0.05 / 0.05 / 0.10 and discount 0.9. It also covers
  Python's `max`, `np.argmax` and `round(·, 4)`.
- **ValueIteration**: the sweep loops of `valueIteration` in both scripts.
  The plain script sweeps every non-terminal cell. The pygame script skips
  obstacles and records the greedy policy. Both stop when `delta` falls below
  0.0001.
- **SweepProperties**: what the sweeps promise.
  - The cells that are not swept keep their rewards.
  - `delta` is the largest change a sweep makes.
  - The policy is the first best action.
  - Values stay within [−11, 10].
  - A sweep is a contraction up to rounding.
  - The two scripts agree on every valid cell.
- **Episodes**: discounted returns of `uniformRandomSelection` /
  `visualUniformRandomSelection` and of `runOptimalPolicy`. These are the
  loops from the start cell until the goal, or until the water ends the
  episode.
- **NeighbourTable**: `initActions`, the table of valid neighbours of every
  non-terminal cell.

Floats are modelled as `real`. Python's `round(x, 4)` becomes `Round4`,
which rounds half to even at four decimals. The infinite loops of the
source get explicit bounds:

- value iteration takes `maxSweeps`;
- a policy episode takes `fuel`, its largest number of steps;
- the random draws of `np.random.choice` are a finite sequence of action
  names supplied by the caller.

Running out of any of these is reported, not hidden.

Two details of the code that a reader might not expect are modelled as
written:

- **The reward in the backup.** In `calculateValue` (value-iteration.py:113-118,
  pygame-value-iteration.py:180-185) the variable `reward` is overwritten
  by each `takeAction` call. The immediate term is therefore the reward of
  the *stay* move, which is the reward of the cell itself. A textbook Bellman
  backup would charge the reward of the move taken, here the intended
  move's. `CalculateValueExpanded` states the code's version.
- **Obstacles in the plain sweep.** value-iteration.py:139 skips only the
  terminal cells, so the plain script sweeps the obstacle cells too, and its
  `delta` includes them. The pygame script excludes obstacles as well
  (pygame-value-iteration.py:206). Both are modelled, as
  `Scope.NonTerminal` and `Scope.NonTerminalFree`.
  `SweepProperties.SweepsAgreeOffObstacles` proves that the two agree on
  every valid cell after any number of sweeps.

## Model

| member | source | states |
|---|---|---|
| Grid.CellAt | value-iteration.py:36 | the k-th entry of the row-major `STATES` list is in bounds and has index k |
| Grid.IndexIdentifies | value-iteration.py:36 | every in-bounds cell sits in `STATES` at its row-major index |
| Grid.AllStates | value-iteration.py:36 | `STATES` / `ALL_STATES` has 25 entries, all on the grid |
| Grid.InBounds | value-iteration.py:43-47 | `inBounds`: both coordinates in 0 .. 4; InBoundsIffListed ties it to `STATES` |
| Grid.IsValidState | gridworld.py:114-119 | `isValidState`: in bounds and not an obstacle; ValidIffListedFree restates it over `ALL_STATES` |
| Grid.InBoundsIffListed | value-iteration.py:43-47 | `inBounds` holds exactly for the cells listed in `STATES` |
| Grid.AllStatesDistinct | gridworld.py:39 | no cell is listed twice in `ALL_STATES` |
| Grid.AllInBoundsListed | gridworld.py:39 | every in-bounds cell is listed in `ALL_STATES` |
| Grid.ValidIffListedFree | gridworld.py:114-119 | `isValidState` holds exactly for listed cells that are not obstacles |
| Grid.ConfigurationWellFormed | value-iteration.py:30-35 | start, goal, water and obstacles are in bounds and pairwise distinct |
| Grid.Reward | value-iteration.py:50-67 | the reward of one cell as the loop assigns it; RewardClassifies says which value marks which kind of cell |
| Grid.RewardClassifies | value-iteration.py:50-67 | the reward is 10 exactly at the goal, −10 exactly at the water, −1 exactly on obstacles, 0 exactly elsewhere |
| Grid.RewardFunction | gridworld.py:152-169 | the loop builds a dictionary with a key for exactly the in-bounds cells, holding goal 10, water −10, obstacles −1, others 0 |
| Moves.TakeActionSpec | value-iteration.py:70-87 | `takeAction` gives −1 exactly when the target is off the grid or an obstacle, and then stays put; otherwise it moves to the target and earns its reward |
| Moves.TakeAction | value-iteration.py:70-87 | `takeAction`: the target of the move, or the cell itself with −1 when the target is off the grid or an obstacle; TakeActionSpec and TakeActionStaysValid give its meaning |
| Moves.TakeActionStaysValid | pygame-value-iteration.py:137-154 | from a valid cell `takeAction` lands on a valid cell, equal or adjacent, with reward −1, 0, 10 or −10 |
| Moves.StayOutcome | value-iteration.py:81-87 | action `N` from an in-bounds cell stays there and earns that cell's own reward (−1 on an obstacle) |
| Moves.GoLeft | value-iteration.py:90-98 | `goLeft`: U to L, D to R, R to U, L to D; VeersRotateOffsets shows it is a quarter turn anticlockwise |
| Moves.GoRight | value-iteration.py:100-108 | `goRight`: U to R, D to L, R to D, L to U; VeersInverse shows it undoes `goLeft` |
| Moves.VeersInverse | value-iteration.py:90-108 | `goLeft` and `goRight` undo each other |
| Moves.VeersRotateOffsets | pygame-value-iteration.py:157-175 | `goRight` turns the move offset a quarter clockwise and `goLeft` a quarter anticlockwise; four turns return, and a veer never equals the intent |
| Moves.ActionSpace | gridworld.py:122-124 | the action space lists four names |
| Moves.ParseAction | gridworld.py:177-186 | the `if`/`elif` chain of `makeAction` on the action name: a direction for "up", "down", "left", "right", nothing for any other string |
| Moves.MakeAction | gridworld.py:174-202 | an unknown action stays put with reward 0; a blocked move stays put with −1; any other move lands on the valid neighbour, with 10 exactly at the goal, −10 exactly at the water and 0 on every other cell |
| Moves.MakeActionAgreesWithTakeAction | uniform-selection.py:74-102 | `makeAction` on a direction's name is `takeAction` on that direction |
| Moves.ActionSpaceHandled | pygame-gridworld.py:91-93 | every name `getActionSpace` offers is a known action that `makeAction` treats as the move `takeAction` makes |
| Bellman.Chances | value-iteration.py:113-122 | an action has four weighted outcomes |
| Bellman.BranchesLand | value-iteration.py:113-116 | from an in-bounds cell the four outcomes land in bounds, so the value lookups are defined |
| Bellman.BranchesListed | value-iteration.py:113-122 | the outcomes are intended 0.8, veer left 0.05, veer right 0.05, stay 0.10 |
| Bellman.CalculateValue | value-iteration.py:111-124 | `calculateValue`: the stay move's reward plus the discounted, weighted values of the four landing cells; CalculateValueExpanded writes it out |
| Bellman.CalculateValueExpanded | value-iteration.py:111-124 | the action value is the stay move's reward plus 0.72, 0.045, 0.045 and 0.09 times the values where the intended move, the veers and the stay land |
| Bellman.CalculateValueOfConstantTable | pygame-value-iteration.py:178-191 | against a constant table k every action is worth the stay reward plus 0.9 k, so the weights sum to 1 |
| Bellman.CalculateValueBounds | value-iteration.py:118-122 | if the table lies in [lo, hi], the action value lies in [stay reward + 0.9 lo, stay reward + 0.9 hi] |
| Bellman.CalculateValueContraction | value-iteration.py:118-122 | tables within eps give action values within 0.9 eps |
| Bellman.CalculateValueIgnoresObstacles | pygame-value-iteration.py:178-191 | from a valid cell the action value reads only valid cells' entries |
| Bellman.ValuesOf | value-iteration.py:140 | the list comprehension has one value per action |
| Bellman.ActionValues | pygame-value-iteration.py:207 | `actionValues` has one entry per action in `ACTIONS` |
| Bellman.ActionValuesAt | pygame-value-iteration.py:207 | entry i is `calculateValue` of the i-th action |
| Bellman.MaxOf | value-iteration.py:140 | Python's `max` over the action values; MaxOfIsMax gives its meaning |
| Bellman.MaxOfIsMax | value-iteration.py:140 | `max` returns an element that no element exceeds |
| Bellman.Argmax | pygame-value-iteration.py:209 | `np.argmax` returns an index into the list |
| Bellman.ArgmaxIsFirstMax | pygame-value-iteration.py:209 | `np.argmax` picks a largest entry, and every earlier entry is strictly smaller |
| Bellman.ArgmaxHoldsMax | pygame-value-iteration.py:208-209 | the entry `np.argmax` picks is the `max` |
| Bellman.Round4 | value-iteration.py:140 | `round(x, 4)`: the nearest multiple of 0.0001, ties to even; Round4Close, Round4Exact and Round4Monotone give its properties |
| Bellman.MaxOfContraction | value-iteration.py:140 | lists within eps entrywise have maxima within eps |
| Bellman.ActionValuesBounds | value-iteration.py:140 | the best action value lies within the stay reward plus 0.9 times the table's bounds |
| Bellman.ActionValuesContraction | value-iteration.py:140 | tables within eps give best action values within 0.9 eps |
| Bellman.ActionValuesIgnoreObstacles | pygame-value-iteration.py:207 | tables that agree on the valid cells give equal action values at a valid cell |
| Bellman.Round4Close | value-iteration.py:140 | `round(x, 4)` moves x by at most 0.00005 |
| Bellman.Round4Exact | pygame-value-iteration.py:208 | `round(x, 4)` leaves a four-decimal value unchanged |
| Bellman.Round4Monotone | value-iteration.py:140 | `round(x, 4)` preserves order |
| ValueIteration.RewardTableAt | value-iteration.py:129 | the initial table has a key for exactly the in-bounds cells, each holding its reward |
| ValueIteration.RewardTableCovers | pygame-value-iteration.py:195 | the initial table covers the grid |
| ValueIteration.Backup | value-iteration.py:140 | `round(max([calculateValue(V, state, action) for action in ACTIONS]), 4)`; BackupBounded and BackupContraction give its properties |
| ValueIteration.Backups | value-iteration.py:140 | the backed-up values cover the grid |
| ValueIteration.BackupsAt | value-iteration.py:140 | each backed-up value is the rounded best action value |
| ValueIteration.SweepOverAt | value-iteration.py:136-141 | the sweep's `newV` covers the grid; a swept cell holds its backup and every other cell its reward |
| ValueIteration.NextTable | value-iteration.py:136-143 | the table after a sweep covers the grid |
| ValueIteration.Iterate | value-iteration.py:129-143 | the table after any number of sweeps covers the grid |
| ValueIteration.ChoicesAt | pygame-value-iteration.py:209-210 | the candidate policy entry of every cell is the first best action |
| ValueIteration.BestAction | pygame-value-iteration.py:207-209 | `ACTIONS[np.argmax(actionValues)]`; SweepProperties.BestActionIsFirstBest gives its meaning |
| ValueIteration.Choices | pygame-value-iteration.py:209 | there is a candidate action for every in-bounds cell |
| ValueIteration.PolicyOverAt | pygame-value-iteration.py:205-210 | after the sweep the policy has the old keys plus the swept cells, and each swept cell holds its new best action |
| ValueIteration.RewardTableFrom | value-iteration.py:129 | a table built by `rewardFunction` is, read as reals, the initial value table |
| ValueIteration.RewardValues | value-iteration.py:50-67 | the dictionary loop returns the initial value table |
| ValueIteration.Sweep | value-iteration.py:135-143 | one pass of the `for state in STATES` loop returns the next table and its `delta`, the largest change over the swept cells |
| ValueIteration.RunValueIteration | value-iteration.py:128-156 | the run stops only after a sweep with `delta` below 0.0001; it then returns that sweep's table, with `iteration` counting the earlier sweeps. Every earlier sweep had `delta` at least 0.0001. Hitting the sweep bound is reported |
| ValueIteration.SweepWithPolicy | pygame-value-iteration.py:201-213 | one pass returns the next table, its `delta` and the policy updated with the best action of every free non-terminal cell |
| ValueIteration.RunValueIterationWithPolicy | pygame-value-iteration.py:194-226 | as RunValueIteration, and the policy returned is the greedy policy of the last sweep |
| ValueIteration.PolicyAfterStep | pygame-value-iteration.py:196-210 | the policy dictionary kept across sweeps equals the one the latest sweep alone writes |
| SweepProperties.NextTableAt | value-iteration.py:136-141 | after a sweep a cell in scope holds its rounded best action value and every other cell its reward |
| SweepProperties.UnsweptCellsKeepRewards | pygame-value-iteration.py:203-206 | terminal cells, and in the pygame script obstacles, keep their reward through every sweep |
| SweepProperties.DeltaIsMaxChange | value-iteration.py:141 | `delta` is at least 0, bounds every swept cell's change, and, unless it is 0, equals some cell's change |
| SweepProperties.BestActionIsFirstBest | pygame-value-iteration.py:207-210 | the recorded action earns the best action value, and every earlier action in U, D, L, R earns strictly less |
| SweepProperties.GreedyAt | pygame-value-iteration.py:205-210 | a sweep's policy has entries for exactly the free non-terminal cells, each the best action |
| SweepProperties.PolicyMatchesTable | pygame-value-iteration.py:194-226 | after n > 0 sweeps the policy covers exactly the free non-terminal cells, with the best action against the table the last sweep started from |
| SweepProperties.BackupBounded | value-iteration.py:140 | a backup from a table within [−11, 10] stays within it |
| SweepProperties.NextTableBounded | value-iteration.py:136-141 | a sweep keeps a table within [−11, 10] |
| SweepProperties.TableBounded | value-iteration.py:128-156 | every value iteration table lies within [−11, 10] |
| SweepProperties.BackupContraction | value-iteration.py:140 | backups from tables within eps are within 0.9 eps + 0.0001 |
| SweepProperties.NextTableContraction | value-iteration.py:136-143 | a sweep maps tables within eps to tables within 0.9 eps + 0.0001 |
| SweepProperties.SweepsAgreeOffObstacles | value-iteration.py:139 | after any number of sweeps, the plain script's table (obstacles swept) and the pygame script's (obstacles skipped) agree on every valid cell |
| SweepProperties.NextTablesAgreeOffObstacles | pygame-value-iteration.py:206 | one sweep of each script keeps two tables that agree on valid cells in agreement |
| Episodes.DiscountPower | gridworld.py:241 | `DISCOUNT_FACTOR ** timestep` lies in (0, 1] |
| Episodes.EpisodeReturn | gridworld.py:240-242 | the running `discountedReturn` over the steps taken; EpisodeReturnIsReturn and EpisodeReturnBounds give its meaning |
| Episodes.EpisodeReturnAppend | gridworld.py:240-242 | each step adds `reward * 0.9 ** timestep` to the running return |
| Episodes.EpisodeReturnPrepend | uniform-selection.py:123 | a return is the first reward plus 0.9 times the return of the rest |
| Episodes.EpisodeReturnIsReturn | pygame-value-iteration.py:296 | the forward running sum equals the backward discounted return |
| Episodes.FinishedReturnBounds | gridworld.py:216-249 | a finished episode's backward return lies within [−10, 10] |
| Episodes.EpisodeReturnBounds | gridworld.py:216-249 | a finished episode's discounted return lies within [−10, 10] |
| Episodes.MakeActionStep | gridworld.py:174-202 | from a valid non-terminal cell, a `makeAction` step ends the episode with 10 or −10 exactly when it reaches the goal or water; otherwise it stays on a valid non-terminal cell with 0 or −1 |
| Episodes.TakeActionStep | pygame-value-iteration.py:137-154 | the same for a `takeAction` step |
| Episodes.RandomEpisodeFrom | gridworld.py:212-249 | the `while currState != GOAL_STATE` loop of one random episode from a cell, taking one drawn action name per step; RandomEpisodeFinishes gives its meaning |
| Episodes.RandomReturns | gridworld.py:206-254 | the `discountedReturns` list of k random episodes, or nothing when the draws run out; RandomReturnsBounds gives its shape |
| Episodes.RandomEpisodeFinishes | gridworld.py:212-249 | a random episode from a valid non-terminal cell keeps the earlier steps and adds steps that finish at the goal or water; it consumes a prefix of the draws |
| Episodes.RandomEpisodeExtends | uniform-selection.py:106-136 | more draws do not change a finished episode, only what is left over |
| Episodes.RandomReturnsShape | gridworld.py:206-254 | the returns list keeps the earlier returns and appends one return per episode, each within [−10, 10] |
| Episodes.RandomReturnsBounds | pygame-gridworld.py:149-196 | `MAX_EPISODES` episodes give that many returns, each within [−10, 10] |
| Episodes.RunRandomEpisodes | gridworld.py:206-254 | the nested loops return exactly the specified returns, or report that the draws ran out |
| Episodes.PolicyEpisodeFrom | pygame-value-iteration.py:272-304 | the inner loop of `runOptimalPolicy` from a cell: the steps of one episode, the cell with no policy entry, or the step budget running out; PolicyEpisodeFinishes gives its meaning |
| Episodes.PolicyEpisodeFinishes | pygame-value-iteration.py:272-304 | a policy episode that ends finishes at the goal or water |
| Episodes.PolicyEpisodeFuelOnlyCaps | pygame-value-iteration.py:272 | the step bound only cuts episodes off: with more fuel a finished episode is the same |
| Episodes.PolicyEpisodeNeverMissing | pygame-value-iteration.py:286 | with a policy for every valid non-terminal cell, `policy[currState]` never misses |
| Episodes.PolicyReturns | pygame-value-iteration.py:263-309 | a deterministic policy gives every episode the same trace, so the returns are k copies of one return; otherwise the first episode's failure: the cell with no policy entry, or the step budget running out |
| Episodes.PolicyReturnsBounds | pygame-value-iteration.py:263-309 | there are k returns, all equal and within [−10, 10] |
| Episodes.RunOptimalPolicy | pygame-value-iteration.py:263-309 | the nested loops return exactly PolicyReturns: the returns, or the cell where `policy[currState]` fails, or that an episode ran out of steps |
| Episodes.GreedyPolicyNeverMissing | pygame-value-iteration.py:226 | the policy value iteration returns never misses a cell on an episode from the start |
| NeighbourTable.AdjacentCases | gridworld.py:138-145 | the adjacent cells are the ones up, down, left and right |
| NeighbourTable.Neighbours | gridworld.py:135-145 | `next_states` of one cell; NeighboursAreValidAdjacent and NeighboursOrdered give its meaning |
| NeighbourTable.NeighboursAreValidAdjacent | gridworld.py:135-145 | `next_states` holds exactly the valid cells adjacent to the state |
| NeighbourTable.NeighboursOrdered | gridworld.py:138-145 | `next_states` has at most four cells, in up, down, left, right order, none twice |
| NeighbourTable.NeighboursAreMakeActionTargets | gridworld.py:174-202 | every move `makeAction` lets through lands in `next_states`, and every cell there is reached by one of the four moves |
| NeighbourTable.NextStates | gridworld.py:135-145 | the four tests build exactly the neighbour list |
| NeighbourTable.InitActions | gridworld.py:127-149 | the table has a key for exactly the in-bounds cells other than water and goal (obstacles included), each holding its neighbour list |

## Left out

- Drawing and events are not modelled: pygame windows, `drawGrid`, `drawAgent`, `displayIteration`, the quit handling and `pygame.time.wait`. Neither are `visualize`, `visualizeV`, `visualizePolicy` or the `print` calls. They are display only.
- `main` in each script is not modelled: it averages and prints the returns with numpy, and that is reporting outside the core.
- Floating point is not modelled: values are `real`, so float rounding in the sums differs. `round(·, 4)` is modelled exactly, as round half to even on the exact value.
- Episodes.RunRandomEpisodes: `np.random.choice` is replaced by a caller-supplied sequence of action names. The uniform distribution itself is not modelled, and a run that needs more draws than supplied returns `None`.
- ValueIteration.RunValueIteration: the source loops until `delta < 0.0001` with no bound. The model takes `maxSweeps` and reports `converged == false` when it is reached. Termination of the unbounded loop is not proved; `SweepProperties.NextTableContraction` gives the contraction it rests on, up to rounding.
- ValueIteration.RunValueIterationWithPolicy: bounded by `maxSweeps` in the same way.
- Episodes.RunOptimalPolicy: the source's `while currState != GOAL_STATE` has no step bound. The model takes `fuel` steps per episode and reports running out. A policy that cycles forever is therefore reported rather than looped on.
- Episodes.RunOptimalPolicy: a missing `policy[currState]` raises `KeyError` in the source. The model returns `MissingEntry` with that cell instead, and `OutOfSteps` where the source would loop for ever.
- Moves.TakeActionSpec: `takeAction` with an action outside `U D L R N` raises `NameError` in the source. The model's `Move` type has only the five actions, so that error path is not represented.
- pygame-uniform-selection.py is byte-for-byte pygame-gridworld.py. Its rows cite the latter.
- `MAX_EPISODES` (10000 in three scripts, 10 in pygame-gridworld.py) is kept as constants. The episode runners take the count as a parameter.
- `EPISODE_SPEED` and the screen sizes are display settings and are not modelled.
