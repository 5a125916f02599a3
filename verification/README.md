# Blackjack turn engine and DQN bookkeeping, in Dafny

This project models two sequential cores of a small "draw until 21" card game
and of the deep Q-learning trainer that plays it.

1. **The turn state machine.**
   - A game has a phase (the player's phase or the house's phase), a deck, and
     one player. The player has a hand of card ranks and two flags: `broken`
     and `stopped`.
   - The player plays one of two actions. `RequestCard` draws a card: reaching
     exactly 21 stops the player, and going past 21 breaks them. `Stop` stands.
   - Every action follows the same protocol. It refuses a second execution and
     refuses an invalid action. It then applies its effect, marks itself
     executed, and reports the phase the game moves to.
   - A fixed catalog numbers the actions and derives the legality mask that the
     trainer consumes.
   - The game can be initialized, reset, stepped, and asked whether it is
     finished and whether the player won.
2. **The trainer's bookkeeping.**
   - The bounded first-in first-out experience buffer.
   - Epsilon-greedy action selection under a legality mask.
   - The guard, the index sampling and the bootstrapped targets of a training
     step.
   - The exploration-rate schedule with its floor.
   - The schedule of target-network copies.

Everything is a value: the functions return the updated player, deck, game or
buffer instead of mutating objects. Each failure the original raises is an
`Err` of a `Result` (module `Results`).

Randomness, the neural networks and the deck's shuffle are parameters:
- the random draws are a `coin: real`, a `pick: nat` and a `draw: nat -> nat`;
- the estimators are functions from a state to a vector of `real` action values;
- a fresh deck is a `seq<int>` of ranks, dealt from the front.

Modules and files:

| file | module | models |
|---|---|---|
| results.dfy | `Results` | `Result`, `Option`, the failure kinds |
| game_phase.dfy | `GamePhases` | the two phases |
| decks.dfy | `Decks` | the deck as a sequence of ranks; dealing |
| player.dfy | `Players` | hand, flags, score, reset |
| actions.dfy | `Actions` | the action protocol and the two variants |
| action_service.dfy | `ActionService` | catalog, index maps, mask, valid actions |
| game.dfy | `Games` | game life cycle, stepping, the reachable-game invariant |
| replay_buffer.dfy | `ReplayBuffer` | `add_experience` |
| policy.dfy | `Policy` | `get_action` |
| bootstrap.dfy | `Bootstrap` | the bookkeeping of `train` |
| schedules.dfy | `Schedules` | the epsilon update and the copy step |

Behaviour of the code that the model keeps as it is:
- The buffer evicts its oldest entry when its size is at least the capacity.
- The exploration rate is lowered before every episode, the first one included.
- Drawing stays legal for a player that stopped without breaking.
- The step count that decides when the target weights are copied restarts at
  0 in every episode (ai/ai_trainer.py:75). So an episode shorter than the
  copy step never copies them.

The reachable-game invariant (`Games.Reachable`) is proved without assuming
that card ranks are non-negative.

## Model

| member | source | states |
|---|---|---|
| Decks.Deal | base/actions/request_card_action.py:36-37 | dealing fails exactly on an empty deck; otherwise the deck shrinks by one and the dealt card together with the rest is the old deck as a multiset |
| Players.NewPlayer | base/players/player.py:14-17 | a new player has an empty hand, score 0, and neither flag set |
| Players.SumAppend | base/players/player.py:25-26 | adding a card to the hand raises the score by exactly its rank |
| Players.SumIsOrderFree | base/players/player.py:25-26 | the score depends only on the multiset of ranks in the hand, not on their order |
| Players.Score | base/players/player.py:25-26 | the score of an empty hand is 0, and the score of any other hand is the score without its last card plus that card's rank |
| Players.NumCards | base/players/player.py:57-58 | the card count counts the hand's cards with multiplicity, and is 0 exactly for an empty hand |
| Players.Reset | base/players/player.py:38-41 | a reset player equals a new one: no cards, score 0, no flags |
| Actions.NewAction | base/actions/action.py:14-16 | a constructed action is not executed |
| Actions.Equal | base/actions/action.py:52-60 | two actions are equal exactly when they are of the same variant |
| Actions.NotEqual | base/actions/action.py:62-67 | two actions are unequal exactly when their variants differ |
| Actions.Hash | base/actions/action.py:69-70 | every action hashes to the hash of the unit key, the key both variants share |
| Actions.EqualityIsByVariant | base/actions/action.py:52-67 | two actions are equal iff they are of the same variant; the executed flag plays no part; inequality is exactly the negation of equality |
| Actions.EqualityIsEquivalence | base/actions/action.py:52-60 | equality is reflexive, symmetric and transitive |
| Actions.EqualActionsHashEqually | base/actions/action.py:69-70 | equal actions have equal hashes |
| Actions.Validate | base/actions/request_card_action.py:23-33 | for either variant, validation succeeds exactly in the player phase for a player that is not broken; the draw's checks here and the stand's at stop_action.py:23-31 are the same two |
| Actions.Apply | base/actions/request_card_action.py:35-41 | a draw fails exactly on an empty deck and otherwise appends the top card to the hand, sets stopped when the new score is 21 and broken when it is past 21, and keeps both flags otherwise; standing only sets stopped |
| Actions.TargetPhase | base/actions/request_card_action.py:43-48 | the next phase is the house phase exactly when the action is a stand, the score is 21, or the player is broken |
| Actions.Reward | base/actions/request_card_action.py:20-21 | the reward is 0 or 1, and 1 exactly for standing |
| Actions.StoppedPlayerMayDraw | base/actions/request_card_action.py:31-33 | a player that has stopped but is not broken may still draw in the player phase, whatever the score |
| Actions.Execute | base/actions/action.py:39-47 | execution fails with DoubleExecution on an executed action, otherwise with InvalidAction on an invalid one, otherwise only when a draw meets an empty deck, and on success returns the action marked executed, exactly the player and deck the variant's effect produces, and the target phase of that player |
| Actions.RequestCardEffect | base/actions/request_card_action.py:20-48 | a draw moves the top card from the deck to the end of the hand and adds one card and its rank to the score; at 21 the player stops, past 21 the player breaks, and below 21 the flags are unchanged; the game moves to the house phase iff 21 is reached or the player broke; the reward is 0 |
| Actions.DrawingPastTheLimitBreaks | base/actions/request_card_action.py:38-48 | a draw that takes the score past 21 breaks the player and ends the turn |
| Actions.DrawAfterStopIsLegal | base/actions/request_card_action.py:31-33 | every player that stopped at 21 without breaking may still draw, and drawing a positive rank then leaves them both stopped and broken, in the house phase |
| Actions.StopEffect | base/actions/stop_action.py:20-37 | standing sets only `stopped` and leaves hand, deck and `broken` as they were; the phase becomes the house phase whatever the score; the reward is 1 |
| ActionService.Catalog | base/actions/action_service.py:17 | the catalog holds two unexecuted actions, drawing first and standing second |
| ActionService.CatalogIsInjective | base/actions/action_service.py:16-20 | the catalog has two entries, drawing first, and they are pairwise unequal |
| ActionService.ActionToIdx | base/actions/action_service.py:22-24 | every action has exactly one index: the position of the catalog entry equal to it |
| ActionService.IdxToAction | base/actions/action_service.py:26-29 | an index inside the catalog gives an unexecuted copy of that entry; any other index fails |
| ActionService.IndexRoundTrip | base/actions/action_service.py:19-29 | index to action and back is the identity on every catalog index |
| ActionService.ActionRoundTrip | base/actions/action_service.py:19-29 | action to index and back gives an unexecuted action equal to the original |
| ActionService.ValidActionsMask | base/actions/action_service.py:36-38 | the mask has one entry per catalog action, each equal to that action's validation |
| ActionService.MaskMatchesValidation | base/actions/action_service.py:36-38 | mask entry `i` holds iff the action at index `i` validates |
| ActionService.ValidActions | base/actions/action_service.py:31-34 | the valid actions are exactly the catalog actions that validate, all unexecuted |
| ActionService.ValidActionsFollowMask | base/actions/action_service.py:31-38 | the valid actions are the catalog entries the mask marks, in catalog order |
| Games.NewGame | base/game.py:17-21 | a constructed game is not initialized and has no player |
| Games.InitializeGame | base/game.py:42-51 | initializing an uninitialized game gives the player phase, the fresh deck and, when asked, a new player; an initialized game is returned unchanged |
| Games.InitializeIsIdempotent | base/game.py:42-51 | initializing twice is the same as initializing once |
| Games.ResetGame | base/game.py:23-40 | keeping a missing player fails; a kept player is reset and a dropped one is replaced only on initialization; the result is initialized iff asked, and then it is in the player phase with the fresh deck |
| Games.PlayerSingleStep | base/players/player.py:43-55 | the player's step returns exactly what executing the chosen action on this player, deck and phase returns, failures included |
| Games.IsFinished | base/game.py:67-73 | the game is finished iff the player stopped or broke; asking with no player fails |
| Games.PlayerWon | base/game.py:92-93 | the player won iff they stopped with a score of at most 21; asking with no player fails |
| Games.PlaySingleStep | base/game.py:53-61 | stepping an uninitialized game fails; stepping a finished game changes nothing; otherwise the step succeeds exactly when the player's step does, passes on its error, and on success the game takes the player, deck and phase of the player's step |
| Games.NewGameIsReachable | base/game.py:17-21 | a new game satisfies the reachable-game invariant |
| Games.InitializePreservesReachable | base/game.py:42-51 | initialization preserves the invariant |
| Games.ResetPreservesReachable | base/game.py:23-40 | a reset preserves the invariant |
| Games.StepPreservesReachable | base/game.py:53-61 | a step preserves the invariant: broken iff the score is past 21, never both broken and stopped, house phase iff finished |
| Games.ReachablePlayerFlags | base/game.py:92-93 | in a reachable game, broken implies a score past 21, the flags never both hold, and winning is the same as having stopped |
| Games.MaskTracksFinished | base/actions/action_service.py:36-38 | in a reachable initialized game every mask entry is true while the game goes on, and every entry is false once it is finished |
| Games.MaskedActionIsAccepted | base/actions/action.py:39-47 | an action the mask allows is accepted by the step of an unfinished reachable game, unless it is a draw from an empty deck |
| Games.DrawToLimitThenStop | base/game.py:53-61 | drawing 10 and 11 from a fresh game stops the player at 21 and ends the turn; standing is then refused, the mask is all false, a further step changes nothing, and the player won |
| ReplayBuffer.AddExperience | ai/ai_trainer.py:59-64 | when the buffer holds at least the capacity, the oldest row is removed before the new one is appended at the end, and otherwise the new row is only appended; aligned columns stay aligned; for an aligned buffer a capacity of at least 1 makes the call succeed, and a buffer within capacity stays within it; the pop from an empty column is the only failure |
| ReplayBuffer.AddAllKeepsNewest | ai/ai_trainer.py:59-64 | after any sequence of additions the buffer holds exactly the newest `capacity` transitions ever added, in order |
| ReplayBuffer.OverfillingKeepsCapacity | ai/ai_trainer.py:59-64 | after `capacity + k` additions to an empty buffer its size is exactly `capacity` and it holds the last `capacity` transitions |
| Policy.Min | ai/ai_trainer.py:55 | the minimum is a value of the vector and at most every value in it |
| Policy.ArgMax | ai/ai_trainer.py:57 | the index holds a largest value, and every earlier value is strictly smaller |
| Policy.ValidIndices | ai/ai_trainer.py:50 | the legal indices are exactly the true positions of the mask, in ascending order |
| Policy.Adjusted | ai/ai_trainer.py:54-56 | legal entries keep their predicted value; illegal entries become the fill value |
| Policy.GetAction | ai/ai_trainer.py:48-57 | exploring returns a legal index and fails only when there is none; the greedy choice fails only on an empty or mismatched prediction; with a legal index present it returns a legal index with the largest legal value, the first among ties; with no legal index it returns 0 |
| Policy.GreedyChoiceIsLegal | ai/ai_trainer.py:52-57 | with epsilon 0 and some legal index, the choice is always legal, whatever the values of the illegal entries |
| Policy.ExploringWithOneLegalIndex | ai/ai_trainer.py:49-51 | with epsilon 1 and a single legal index, that index is chosen for every draw |
| Bootstrap.Max | ai/ai_trainer.py:37 | the maximum is a value of the vector and at least every value in it |
| Bootstrap.SampleIds | ai/ai_trainer.py:31 | exactly `batchSize` indices are drawn, each in [0, size) |
| Bootstrap.SelectedValue | ai/ai_trainer.py:41-42 | summing the values masked by the action's one-hot vector gives the value of that action, or 0 for an action outside the vector |
| Bootstrap.Targets | ai/ai_trainer.py:37-38 | the target of each sampled transition is its reward when it ended the episode, and otherwise the reward plus gamma times the best next value |
| Bootstrap.SelectedValues | ai/ai_trainer.py:41-42 | each sampled transition gets the online value of the action it took |
| Bootstrap.Train | ai/ai_trainer.py:28-38 | training is skipped iff the buffer holds fewer than the minimum; an empty buffer that passes the guard fails; an aligned non-empty buffer past the guard whose next states all have target values always trains; a trained step has `batchSize` in-range indices, the Bellman targets and the selected values |
| Bootstrap.TerminalTargetsIgnoreTargetNet | ai/ai_trainer.py:37-38 | the target of a transition that ended its episode does not depend on the target network |
| Schedules.NextEpsilon | ai/ai_trainer.py:122 | the new rate is at least the floor and at least the decayed rate, and it is one of the two |
| Schedules.EpsilonAt | ai/ai_trainer.py:121-122 | the rate of every episode is at least the floor |
| Schedules.EpsilonClosedForm | ai/ai_trainer.py:121-122 | for a decay in [0, 1] and a non-negative floor, the rate of episode `n` is the larger of the floor and `epsilon0 * decay^(n+1)` |
| Schedules.ShouldCopy | ai/ai_trainer.py:95-96 | a copy happens iff the iteration is a multiple of the copy step; a zero copy step fails |
| Schedules.CopySteps | ai/ai_trainer.py:90-96 | the copy iterations of an episode lie in 1..n and ascend strictly |
| Schedules.CopyStepsAreMultiples | ai/ai_trainer.py:95-96 | iteration `k` of an `n`-step episode triggers a copy iff `1 <= k <= n` and `k` is a multiple of the copy step |
| Schedules.CopyCount | ai/ai_trainer.py:95-96 | an episode of `n` steps copies the weights `n / copyStep` times |
| Schedules.ShortEpisodeNeverCopies | ai/ai_trainer.py:75-96 | an episode with fewer steps than the copy step copies nothing, because the step count restarts at 0 in each episode |

## Left out

- The neural networks and their training: the multilayer perceptron, `predict`, the squared-error loss, the gradient tape, the optimizer, `copy_weights`, `save_weights` and the summary writers. These are foreign library calls over floating point. The estimators are function parameters over `real`.
- Bootstrap.SelectedValue: the width of the one-hot vector is the estimator's output width, where the original uses `num_actions`. An estimator of width one is broadcast against the one-hot vector: the original then returns its single value for every action in [0, num_actions), while the model returns it only for action 0. Any other width different from `num_actions` makes the original fail, while the model still returns a value.
- Bootstrap.Train: describes `train` without its `@tf.function` decorator. Under the decorator the guard, the index draw and the NumPy reductions run when the function is traced, and later calls with the same target network reuse the traced graph. The model gives the eager, line-by-line reading: a fresh guard and a fresh draw on every call.
- Bootstrap.Train: stops at the values that are compared with the targets. The loss and the gradient update are part of the network machinery left out above.
- Randomness: the coin of `get_action`, its choice among the legal indices, the `randint` draws of `train` and the deck shuffle are all parameters.
- Policy.GetAction: the random choice among the legal indices is modelled as `pick % |legal indices|`, not as a uniform distribution.
- The deck, hand and card classes are not part of this model. A deck is a sequence of ranks dealt from the front; a hand is a sequence of ranks.
- base/game_state.py, ai/controlled_game.py and the environment's rewards are not part of this model. Neither are the `play_game` episode loop and the `main` driver, apart from the epsilon update and the copy test they contain.
- The construction of players from configuration (`_initialize_players`) and the singleton metaclass. A freshly initialized player is a new player.
- The run scripts, `base/constants.py`, logging, printing, `__str__`/`__repr__` and the `print_exp_step` diagnostics.
- Actions.Reward: models the rewards of the two variants; the protocol's default of 0 is overridden by both and never used.
- Actions.Hash: the concrete hash value of the key is a runtime detail, so one number per key stands in for it.
- ReplayBuffer.AddExperience: when popping from an empty column fails part-way, the original has already changed the columns popped before it. The model returns only the error.
- Games.ResetGame: on the `NoPlayer` failure the original has already cleared phase and deck. The model returns only the error.
- Policy.GetAction: the masking arithmetic is exact over `real`. In floating point, `min(predictions) - 1` rounds back to the minimum once its magnitude reaches 2^24 (float32) or 2^53 (float64). Then predictions `[m, m]` with mask `[false, true]` give the illegal index 0. A NaN prediction makes every adjusted entry NaN. The model promises legality only for exact values.
- Policy.GetAction: a mask whose length differs from the predictions is a failure. Array broadcasting of a length-one operand is not modelled.
- Schedules.ShouldCopy: Python's `//` rounds toward negative infinity and its `%` takes the sign of the divisor, while Dafny's `%` is never negative. Only the test for a zero remainder is modelled, and there the two agree.
- The mask and the valid-action list do not change the player, deck or phase. This holds by construction: they are pure functions of them.
