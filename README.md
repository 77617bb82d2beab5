# Maze playground — a verified model of its engines

The maze playground generates rectangular mazes, lets a player walk them, and
solves them as a Markov decision process. Every part works on one data model: a
grid of integer cell codes. The codes are UNVISITED = -2, WALL = -1, ROOM = 0,
VISITED = 2, PLAYER = 3 and EXIT = 4.

This project models the three engines and the supporting logic around them.
Each module follows one source file:

| module | source file | what it holds |
|---|---|---|
| `Cells`, `RoomTree`, `Text`, `Outcomes` | shared | cell codes, directions, positions and grid snapshots; the tree that generation grows; Python's string helpers (`split`, `strip`, `lower`, `Path.stem`); Option/Result |
| `MazeConfig` | MazeConfig.py | generator settings: validation, weight normalisation, neighbour enumeration, dictionary round trip, presets |
| `MazeGenerator` | MazeGenerator.py | `Generator`: breadth-first room growing over an `array2`, the finalisation pass and the saved file name |
| `MazeGame` | MazeGame.py | `Game`: placing the player and the exit, moves, victory, save and load |
| `MazeDp` | MazeDP.py | `Solver`: rewards, value iteration, policy evaluation, improvement and extraction |
| `MazeDpFrame` | MazeDpFrame.py | resetting the exits of a maze copy and placing a single new exit |
| `MazeBlockFrame` | MazeBlockFrame.py | reading size, date and time out of a saved maze's file name |
| `ViewMazesPage` | ViewMazesPage.py | the search filter, the stable name sort and the grid placement of the maze list |
| `FrameManager` | FrameManager.py | the page registry and the back-navigation history |
| `GenerateMazeFrame` | GenerateMazeFrame.py | `Form`: direction weights that rebalance each other, presets, input bounds, the time estimate |
| `MazeGamePage` | MazeGamePage.py | `Page`: the game-state machine, key mapping, score and the clock label |

The model keeps the source's form:

- Objects whose fields are updated in place become classes with `modifies` clauses.
- Grids the source overwrites cell by cell are `array2`s.
- Read-only grids and snapshots are `seq<seq<int>>`.
- Each method is proved against a specification function on those snapshots.
- The solver's pure rules are functions of a value type `Mdp`:
  - `Next`, the next-state rule;
  - `Sweep`, the synchronous Bellman backup;
  - `EvalSweep`, evaluation under a fixed policy;
  - `Improve`, greedy first-argmax improvement;
  - `PiRound`, one round of policy iteration.

  The array methods are proved to compute exactly these functions.

Randomness is an oracle parameter:

- `rand`: the stream of `random.random()` draws;
- `order`: the direction permutations that `weighted_shuffle` returns;
- `idx` / `pick`: the index of a `random.choice`;
- `cornerDraw` / `edgeDraw`: the draws of the exit placement.

The clock is a parameter `now`. Numbers that the source keeps as floats are Dafny `real`s.

## Model

| member | source | states |
|---|---|---|
| Cells.CodeRoundTrip | MazeConfig.py:17-24 | each cell type's integer code decodes back to that type, so the six codes are distinct |
| Cells.FromCode | MazeConfig.py:17-24 | an integer names a cell type exactly when it is one of the six codes, and then it is that type's code |
| Cells.OnlyWallImpassable | MazeConfig.py:17-24 | WALL is the only cell type whose code is -1 |
| Cells.StepIsAdjacent | MazeConfig.py:11-15 | moving by any direction's delta reaches a 4-neighbour, and the relation is symmetric |
| Cells.AdjacentIsStep | MazeConfig.py:11-15 | every 4-neighbour is reached by one of the four direction deltas |
| Cells.NeighboursNotAdjacent | MazeGenerator.py:104-113 | no two 4-neighbours of a cell are 4-adjacent to each other, which is why region counting around a cell only counts neighbours |
| Cells.StepsWhereComplete | MazeGenerator.py:53-67 | the neighbour scan keeps every neighbour in the given direction order that passes the test |
| Cells.StepsWhereSound | MazeGenerator.py:53-67 | everything the neighbour scan returns is the step of some scanned direction |
| Cells.StepsWhereDistinct | MazeGenerator.py:53-67 | over a repetition-free direction order the scan returns no position twice |
| Cells.AllCellsCard | MazeGenerator.py:148-149 | a height × width grid has exactly height · width cells |
| Text.SplitJoin | MazeBlockFrame.py:264 | `split` undoes joining pieces that do not contain the separator |
| Text.Lower | ViewMazesPage.py:244 | lower-casing keeps the length and maps each character on its own, the ASCII capitals to their small letters (ASCII only; see Left out) |
| Text.Strip | ViewMazesPage.py:416 | `strip` returns the middle slice left after removing leading and trailing whitespace, and it neither starts nor ends with whitespace; whitespace is the set `str.isspace` accepts (ASCII white space, U+001C–U+001F, NEL, no-break space, the Unicode space separators, U+2028 and U+2029) |
| Text.NatToStringValue | MazeBlockFrame.py:384-389 | the decimal text of a natural number reads back as that number |
| Text.Pad2 | MazeGamePage.py:608-620 | `{:02d}` gives at least two digits, exactly two below 100, and reads back as the number |
| Text.LexLeTotal | ViewMazesPage.py:248-249 | any two stems are ordered one way or the other by Python's string comparison |
| Text.LexLeTransitive | ViewMazesPage.py:248-249 | the string order is transitive |
| Text.LexLeAntisymmetric | ViewMazesPage.py:248-249 | two stems ordered both ways are equal |
| Cells.StepsWhereAll | MazeConfig.py:185-191 | scanning the four directions lists the kept neighbours in the order up, down, left, right, each at most once |
| RoomTree.ExtendTree | MazeGenerator.py:127-141 | adding a new room with a link to an earlier room keeps the parent links of the room tree valid |
| RoomTree.Connected | MazeGenerator.py:154-195 | every room of the tree is joined to the start cell by a path of 4-adjacent rooms |
| RoomTree.OneEarlierNeighbour | MazeGenerator.py:121-134 | every room except the start had exactly one adjacent room among the rooms created before it |
| RoomTree.TreeEdgeCount | MazeGenerator.py:121-134 | n rooms carry exactly n − 1 adjacencies to earlier rooms, so the rooms form a tree |
| MazeConfig.AlgorithmFromValue | MazeConfig.py:27-34 | parsing an algorithm value succeeds exactly for the four known names and gives the algorithm with that value |
| MazeConfig.CheckWeights | MazeConfig.py:112-114 | the weight check passes iff every weight lies in [0, 1]; otherwise the message names the first weight that does not |
| MazeConfig.ValidateConfig | MazeConfig.py:87-123 | validation passes exactly for valid settings, and width < 3 and then height < 3 are reported first with their messages |
| MazeConfig.LargeDimensionsWarning | MazeConfig.py:93-94 | a dimension above 1000 only warns and does not make valid settings fail |
| MazeConfig.NormalizedWeights | MazeConfig.py:125-137 | normalisation keeps the weight keys in their order |
| MazeConfig.SumScaled | MazeConfig.py:132-135 | dividing every weight by c divides their sum by c |
| MazeConfig.NormalizedSumsToOne | MazeConfig.py:132-135 | when the sum is non-zero and not within 1e-6 of 1, the normalised weights sum to exactly 1 |
| MazeConfig.NormalizedZeroSum | MazeConfig.py:128-131 | when the sum is 0, every weight becomes 0.25 |
| MazeConfig.NormalizePreservesValidity | MazeConfig.py:81-85 | normalising valid settings gives valid settings |
| MazeConfig.NormalizeIdempotent | MazeConfig.py:125-137 | normalising twice equals normalising once, given a non-zero sum or four keys |
| MazeConfig.NormalizeNotIdempotentWithExtraKey | MazeConfig.py:128-131 | with a fifth key and a zero sum, a second normalisation changes the weights again |
| MazeConfig.IsValidPosition | MazeConfig.py:160-171 | a position is valid iff 0 ≤ x < height and 0 ≤ y < width |
| MazeConfig.GetNeighbors | MazeConfig.py:173-192 | the neighbours are exactly the in-bounds 4-neighbours, none repeated, listed in the order up, down, left, right |
| MazeConfig.NeighborCount | MazeConfig.py:173-192 | a cell has 4 neighbours minus one for each border it touches: 2 at corners, 3 on edges |
| MazeConfig.SetField | MazeConfig.py:341-343 | setting one field changes that field's value and no other |
| MazeConfig.FromKeywordsFields | MazeConfig.py:44-79 | construction takes each given keyword's value and each field's default otherwise |
| MazeConfig.FieldMapLookup | MazeConfig.py:220-245 | the dictionary holds every field under its name, with the field's value |
| MazeConfig.ToDict | MazeConfig.py:220-245 | the dictionary has exactly the field keys, and the algorithm is stored as its string value |
| MazeConfig.FromFieldMap | MazeConfig.py:247-262 | a dictionary holding exactly the fields of some settings builds those settings |
| MazeConfig.ToDictRoundTrip | MazeConfig.py:220-262 | building settings from their own dictionary gives the same settings |
| MazeConfig.SettingsFromDict | MazeConfig.py:247-262 | an unknown algorithm name or an unknown key makes building fail |
| MazeConfig.PresetNamed | MazeConfig.py:264-323 | a preset is found exactly for the nine names, and it carries that name |
| MazeConfig.PresetValid | MazeConfig.py:264-323 | every preset's settings are valid and already normalised |
| MazeConfig.PresetSettings | MazeConfig.py:264-323 | a preset lookup ignores case, succeeds exactly for known names and returns valid normalised settings |
| MazeConfig.AppliedSnoc | MazeConfig.py:334-349 | applying modifications one after another sets each known field in turn |
| MazeConfig.UnknownKeysIgnored | MazeConfig.py:341-345 | a modification with an unknown key has no effect |
| MazeConfig.Config.Create | MazeConfig.py:81-85 | construction succeeds iff the settings are valid, reports the validation message otherwise, and stores the normalised settings |
| MazeConfig.Config.NormalizeDirectionWeights | MazeConfig.py:125-137 | the weights are replaced by their normalisation and nothing else changes |
| MazeConfig.Config.SetAttr | MazeConfig.py:341-343 | one field is set and the others are kept |
| MazeConfig.Config.Copy | MazeConfig.py:194-218 | the copy is a new object with equal (normalised) settings, created iff they are valid |
| MazeConfig.Config.ToDictionary | MazeConfig.py:220-245 | the dictionary builds back to this configuration's settings |
| MazeConfig.Config.FromDict | MazeConfig.py:247-262 | building succeeds iff the dictionary gives valid settings, and stores them normalised |
| MazeConfig.Config.GetPreset | MazeConfig.py:264-323 | a named preset gives a new configuration with its settings; an unknown name fails |
| MazeConfig.Config.ApplyPresetModifications | MazeConfig.py:334-349 | the result is the validation of the modified settings, and on success the settings are modified then normalised |
| MazeConfig.FromDictToDictRoundTrip | MazeConfig.py:220-262 | for constructed configurations, reading back the dictionary gives the same valid, normalised settings |
| MazeConfig.ConstructedIsNormalized | MazeConfig.py:81-85 | settings that went through construction are a fixed point of normalisation |
| MazeGenerator.BaseProb | MazeGenerator.py:115-119 | the base probability is `base_prob_factor` when there are no neighbours, lies in (0, 1] for a real neighbour index and is 1 for the last neighbour |
| MazeGenerator.RoomProbability | MazeGenerator.py:115-119 | the room probability is the base minus decay × adjacent rooms, floored at `min_room_prob` |
| MazeGenerator.MoreRoomsLessLikely | MazeGenerator.py:115-119 | more adjacent rooms never raise the room probability |
| MazeGenerator.LaterNeighbourMoreLikely | MazeGenerator.py:115-119 | later neighbours in the shuffled order are never less likely to become rooms |
| MazeGenerator.LastLoneNeighbourCertain | MazeGenerator.py:115-119 | the last neighbour in the order, with an adjacent-room count of 0, gets a room probability of at least 1 |
| MazeGenerator.Finalized | MazeGenerator.py:143-152 | finalisation turns UNVISITED into WALL and leaves every other code alone |
| MazeGenerator.StartGrown | MazeGenerator.py:164-166 | marking the start cell ROOM on a fresh grid starts a valid growth state |
| MazeGenerator.Decided | MazeGenerator.py:127-141 | deciding a discovered cell keeps the growth invariant: a room joins the tree and the queue, a wall joins the walls |
| MazeGenerator.DecideRoom | MazeGenerator.py:127-141 | a new room with at most one room neighbour links to the cell that discovered it |
| MazeGenerator.DecideWall | MazeGenerator.py:127-141 | a new wall changes nothing else in the growth state |
| MazeGenerator.FinishRun | MazeGenerator.py:143-152 | after finalisation the rooms are exactly the tree cells, every cell is ROOM or WALL, and rooms + walls = height · width |
| MazeGenerator.SavedStem | MazeGenerator.py:239-241 | the saved name is "maze", the size, the 8-digit date and the 6-digit time joined by "_" |
| MazeGenerator.Generator.constructor | MazeGenerator.py:14-31 | the generator takes its dimensions and probability factors from the configuration, or from the defaults when none is given |
| MazeGenerator.Generator.InBounds | MazeGenerator.py:33-35 | a position is in bounds iff it is a cell of the grid |
| MazeGenerator.Generator.GetUnvisitedNeighbors | MazeGenerator.py:53-67 | the result is exactly the in-bounds UNVISITED 4-neighbours in the shuffled order, distinct, at most 4, and the maze is unchanged |
| MazeGenerator.Generator.CountAdjacentRooms | MazeGenerator.py:69-79 | the count is the number of ROOM neighbours minus one, so it lies in [−1, 3] |
| MazeGenerator.Generator.GetRoomNeighbors | MazeGenerator.py:81-90 | the result is exactly the in-bounds ROOM 4-neighbours, distinct and at most 4 |
| MazeGenerator.Generator.MarkRegion | MazeGenerator.py:92-102 | the flood fill marks the start and only cells of the given neighbour set; every neighbour next to a newly marked cell is marked, and every newly marked cell is reachable from the start through unseen neighbours |
| MazeGenerator.Generator.CountRoomRegionsAround | MazeGenerator.py:104-113 | the number of room regions around a cell equals its number of ROOM neighbours |
| MazeGenerator.Generator.CalculateRoomProbability | MazeGenerator.py:115-119 | the probability is the room-probability formula for the current neighbour count, never below `min_room_prob` |
| MazeGenerator.Generator.ShouldCreateRoom | MazeGenerator.py:121-125 | a room is created iff the cell has at most one ROOM neighbour and the next draw is below the probability; one draw is consumed |
| MazeGenerator.Generator.ProcessNeighbor | MazeGenerator.py:127-141 | only the target cell changes, to ROOM or WALL; exactly one counter goes up; the cell is queued iff it became ROOM |
| MazeGenerator.Generator.FinalizeMaze | MazeGenerator.py:143-152 | every UNVISITED cell becomes WALL and is counted as a wall; other cells are unchanged |
| MazeGenerator.Generator.Generate | MazeGenerator.py:154-195 | no cell is left UNVISITED; the rooms form a tree from the start; on a fresh generator the rooms are exactly the tree, rooms + walls = height · width and the room counter equals the number of ROOM cells |
| MazeGenerator.Generator.GrowRooms | MazeGenerator.py:164-193 | draining the queue keeps the growth invariant, and the counters follow the rooms and walls created |
| MazeGenerator.Generator.VisitNeighbors | MazeGenerator.py:178-193 | each discovered neighbour becomes exactly one new room or wall, and the queue stays the unprocessed tail of the tree |
| MazeGenerator.Generator.DecideNeighbor | MazeGenerator.py:181-193 | one neighbour is decided: either the tree or the walls grow by that cell, with the matching counter, and no other cell stops being UNVISITED |
| MazeGame.DirectionOf | MazeGame.py:53-60 | a key names a direction iff it is w, s, a or d (or a direction member), and the direction maps back to that key |
| MazeGame.KeyOfRoundTrip | MazeGame.py:53-60 | every direction's key maps back to that direction |
| MazeGame.ScanRooms | MazeGame.py:197-220 | the scan of a rectangle returns its ROOM cells in row-major order, skipping the given cell |
| MazeGame.FarEnough | MazeGame.py:343-345 | the filtered rooms are exactly those at Manhattan distance ≥ the minimum |
| MazeGame.Furthest | MazeGame.py:356-358 | the chosen room is the first one with the largest distance from the player |
| MazeGame.SortDescending | MazeGame.py:331-335 | the corners are sorted by non-increasing distance and form a permutation of the input |
| MazeGame.ByDistanceSorted | MazeGame.py:331-335 | corners paired with their distances come out in non-increasing distance order |
| MazeGame.EffectiveMinDistance | MazeGame.py:328 | a minimum distance of None or 0 means the default, any other value is used as given |
| MazeGame.SaveLoadRoundTrip | MazeGame.py:675-736 | loading a saved state restores every saved field; only an empty maze comes back as no maze |
| MazeGame.SaveLoadOnto | MazeGame.py:698-736 | loading onto another game takes the saved statistics and flags, and keeps the old positions only where none were saved |
| MazeGame.Game.constructor | MazeGame.py:74-105 | a new game holds the given maze and no player, exit or progress, with exit radius 3 and minimum exit distance 5 |
| MazeGame.Game.InBounds | MazeGame.py:164-178 | a position is in bounds iff a maze is loaded and the position indexes a cell of it |
| MazeGame.Game.IsWalkable | MazeGame.py:180-195 | a cell is walkable iff it is in bounds and not WALL (the intended test; see Findings) |
| MazeGame.Game.WalkableAsWrittenIsInBounds | MazeGame.py:180-195 | as written, a cell is walkable exactly when it is in bounds |
| MazeGame.Game.WallWalkableAsWritten | MazeGame.py:195 | as written, a WALL cell counts as walkable, which the intended test refuses |
| MazeGame.Game.GetAvailableRooms | MazeGame.py:197-220 | the result is exactly the ROOM cells, minus the player's cell when asked, in row-major order (the intended test; see Findings) |
| MazeGame.Game.GetAvailableRoomsAsWritten | MazeGame.py:197-220 | as written, the list of available rooms is always empty |
| MazeGame.Game.AvailableRoomsLostAsWritten | MazeGame.py:215 | on a one-room maze the intended scan finds the room while the scan as written finds nothing |
| MazeGame.Game.LoadMaze | MazeGame.py:127-151 | an empty maze or empty first row is refused with no change; otherwise the maze and its original become the given grid and all game state is reset |
| MazeGame.Game.ResetGameState | MazeGame.py:153-162 | positions, flags and statistics return to their initial values and the mazes are kept |
| MazeGame.Game.GeneratePlayer | MazeGame.py:222-268 | placement fails with no change without a maze, at an out-of-bounds or WALL position, or with no ROOM for a random one; on success the cell becomes PLAYER, the game is playing, the clock starts and the path gains the position (the intended wall test; see Findings) |
| MazeGame.Game.PlayerCell | MazeGame.py:237-252 | the chosen cell is the requested position when it is in bounds and not WALL, or a ROOM cell when none is requested (the intended wall test; see Findings) |
| MazeGame.Game.CalculateDistance | MazeGame.py:270-272 | the distance is the symmetric Manhattan distance and is 0 only between equal cells |
| MazeGame.Game.CornerPositions | MazeGame.py:274-282 | the four corners lie on border rows and border columns, and in bounds when the maze is non-empty |
| MazeGame.Game.FindRoomsNearPosition | MazeGame.py:284-311 | the result is exactly the in-bounds ROOM cells in the clipped square of the radius, other than the player's cell, in row-major order |
| MazeGame.Game.GenerateExit | MazeGame.py:313-377 | an exit is placed iff the game is playing and a ROOM other than the player's cell exists; it was ROOM and is not the player's cell. When a room near some corner is far enough, the exit is near the first such corner in the reverse (distance, corner) order; otherwise it is the furthest room whenever one is far enough (the intended room scan; see Findings) |
| MazeGame.Game.ExitNearCorners | MazeGame.py:331-350 | a found exit is far enough and near a corner c, and every corner sorted before c (further away, or as far and larger) has no far-enough room near it; none is found only when every room near every corner is too close |
| MazeGame.Game.CornersFurthestFirst | MazeGame.py:331-335 | the four corners in the order of Python's reverse sort of (distance, corner) pairs: further first, equal distances with the larger corner first |
| MazeGame.Game.ExitNearAny | MazeGame.py:338-350 | the corners are tried in order; a found exit is far enough and near the first corner that has a far-enough room nearby, and none is found only when no corner has one |
| MazeGame.Game.ExitNearCorner | MazeGame.py:338-350 | a found exit is far enough and near this corner; none means every room near it is too close |
| MazeGame.Game.FallbackExit | MazeGame.py:352-371 | a fallback exit is found iff a ROOM other than the player's exists, and it is the furthest room whenever one is far enough (the intended room scan; see Findings) |
| MazeGame.Game.ChooseExit | MazeGame.py:331-371 | the corner search decides whenever some corner has a far-enough room nearby, and the fallback only otherwise; a choice exists iff a ROOM other than the player's does (the intended room scan; see Findings) |
| MazeGame.Game.IsValidMove | MazeGame.py:465-482 | a move is valid iff the game is playing, the key is known and the target is walkable; `game_over` is not consulted (the intended wall test; see Findings) |
| MazeGame.Game.MovePlayer | MazeGame.py:379-427 | a move succeeds iff the game is not over and the move is valid, else nothing changes; the old cell becomes VISITED, the new one PLAYER, the path and move count grow, and stepping on EXIT ends and wins the game |
| MazeGame.Game.HandleVictory | MazeGame.py:429-448 | the exit cell becomes PLAYER, the game is won and over, the end time is set and the path ends at the exit |
| MazeGame.Game.ExecuteMove | MazeGame.py:450-463 | the old cell becomes VISITED, the new one PLAYER, the position moves and the path gains it; flags are unchanged |
| MazeGame.Game.GetMoveSuggestions | MazeGame.py:662-673 | the suggestions are exactly the valid keys, in the order w, a, s, d (the intended wall test; see Findings) |
| MazeGame.Game.StartGame | MazeGame.py:625-660 | with a maze, the game restarts from the non-empty backup grid and succeeds iff the player can be placed and another ROOM is left for the exit. A failed player placement leaves the reset game; a failed exit leaves the player placed and the game in play. On success there is a PLAYER cell and a distinct EXIT on a former ROOM, far enough whenever some room is, the game is playing and not won, with one path entry and zero moves (the intended wall and room tests; see Findings) |
| MazeGame.Game.PlayerThenExit | MazeGame.py:647-656 | on a reset game the player is placed iff placement is possible, and the exit then iff another ROOM is left; each failure leaves the state described for start_game |
| MazeGame.Game.SaveGameState | MazeGame.py:675-696 | the saved state records the playing flag and statistics and loads back to this game |
| MazeGame.Game.LoadGameState | MazeGame.py:698-736 | loading sets the game to the restore of the saved state |
| MazeDp.Argmax | MazeDP.py:187 | the chosen index attains the maximum, and every earlier index is strictly smaller, so ties go to the lowest action |
| MazeDp.ArgmaxAttainsMax | MazeDP.py:180-187 | the first argmax holds the maximum value |
| MazeDp.DeltaBounds | MazeDP.py:151-153 | the sweep delta bounds every cell's change and equals one of them (or 0) |
| MazeDp.BaseRewards | MazeDP.py:56-68 | WALL cells get the wall reward, EXIT cells the goal reward, all others the step reward |
| MazeDp.WithCustom | MazeDP.py:91-95 | custom rewards replace exactly the in-bounds cells they name |
| MazeDp.Mdp.Next | MazeDP.py:97-112 | the next state is the shifted cell when it is valid and the same cell otherwise, so valid states lead to valid states |
| MazeDp.Mdp.QValues | MazeDP.py:141-146 | there is one backup per action, in action order |
| MazeDp.Mdp.Sweep | MazeDP.py:131-149 | every cell of the new grid is computed from the pre-sweep grid only (synchronous) |
| MazeDp.Mdp.EvalSweep | MazeDP.py:226-245 | every cell of a policy-evaluation sweep is computed from the pre-sweep grid only |
| MazeDp.Mdp.Improve | MazeDP.py:247-270 | improvement gives an action grid whose every cell is the improved action for that cell |
| MazeDp.Mdp.Seed | MazeDP.py:200-205 | seeding gives an action grid whose every cell is the seeded action for that cell |
| MazeDp.SweepIsBellmanBackup | MazeDP.py:131-149 | a sweep keeps WALL and terminal cells and sets every other cell to the maximum over the four actions of reward + γ · old value of the next state |
| MazeDp.IterateKeepsFrozen | MazeDP.py:138-139 | any number of value sweeps leaves WALL and terminal cells unchanged |
| MazeDp.EvalRunKeepsFrozen | MazeDP.py:234-235 | policy evaluation leaves WALL and terminal cells unchanged |
| MazeDp.FrozenRewardsUnreadBySweep | MazeDP.py:145 | the rewards of WALL and terminal cells are never read by a value sweep |
| MazeDp.FrozenRewardsUnreadByEval | MazeDP.py:239 | the rewards of WALL and terminal cells are never read by policy evaluation |
| MazeDp.FrozenRewardsUnreadByImprove | MazeDP.py:256-265 | the rewards of WALL and terminal cells are never read by policy improvement |
| MazeDp.ImproveFixedPoint | MazeDP.py:247-270 | improvement yields a greedy policy, and it leaves a policy unchanged iff that policy is already greedy |
| MazeDp.PiRoundGreedy | MazeDP.py:208-222 | after a round the policy is greedy for the new values, and the round is stable iff the policy did not change |
| MazeDp.PiRoundSameFrozen | MazeDP.py:208-222 | a round of policy iteration keeps the values and actions of WALL and terminal cells |
| MazeDp.PiIterateSameFrozen | MazeDP.py:208-222 | any number of rounds keeps the values and actions of WALL and terminal cells |
| MazeDp.SweepStep | MazeDP.py:131-160 | one more iteration is one more sweep and appends that sweep's delta to the history |
| MazeDp.ViOutcomeIntro | MazeDP.py:129-170 | a run that stops at the first delta below theta, or at the iteration limit, has the documented outcome and keeps frozen cells |
| MazeDp.PiStep | MazeDP.py:208-222 | one more round appends its 0/1 stability flag to the history |
| MazeDp.PiOutcomeIntro | MazeDP.py:189-224 | a run whose flags are all 1 before the last has the documented outcome, keeps frozen cells and ends greedy |
| MazeDp.ScanCount | MazeDP.py:47-54 | the row-major scan lists each kept cell once |
| MazeDp.SeedKeepsFrozen | MazeDP.py:202-205 | seeding the policy changes only valid non-terminal cells |
| MazeDp.Solver.FindTerminalStates | MazeDP.py:47-54 | the terminals are the EXIT cells in row-major order |
| MazeDp.Solver.FillRewards | MazeDP.py:56-68 | the new reward grid is the base reward of each cell |
| MazeDp.Solver.constructor | MazeDP.py:17-45 | the solver copies the maze, sets default rewards and starts with zero values and policy and an empty history |
| MazeDp.Solver.UpdateRewards | MazeDP.py:70-95 | rewards become the base rewards with the custom overrides applied last; values, policy and history are kept |
| MazeDp.Solver.ApplyCustom | MazeDP.py:91-95 | only cells named by in-bounds custom keys change, to their custom reward |
| MazeDp.Solver.ActionValues | MazeDP.py:141-146 | the action values are the four backups of the cell |
| MazeDp.Solver.ValueSweep | MazeDP.py:132-153 | the array becomes the synchronous sweep of its old contents and the returned delta is the largest change |
| MazeDp.Solver.EvaluationSweep | MazeDP.py:229-243 | the array becomes the evaluation sweep of its old contents and the returned delta is the largest change |
| MazeDp.Solver.EvaluatePolicy | MazeDP.py:226-245 | the values become the policy-evaluation run from the old values |
| MazeDp.Solver.ImprovePolicy | MazeDP.py:247-270 | the policy becomes its greedy improvement, and `stable` holds iff the old policy was already greedy |
| MazeDp.Solver.ExtractPolicy | MazeDP.py:172-187 | each valid non-terminal cell gets the lowest action attaining the maximum backup |
| MazeDp.Solver.SeedPolicy | MazeDP.py:200-205 | every valid non-terminal cell gets the same initial action |
| MazeDp.Solver.ValueIteration | MazeDP.py:118-170 | a limit ≤ 0 is refused; otherwise 1 ≤ iterations ≤ limit, the history has one delta per iteration ending with the final delta, `converged` iff final delta < theta, frozen cells are kept and the policy is extracted |
| MazeDp.Solver.SweepUntil | MazeDP.py:129-160 | the sweep loop stops at the first delta below theta or at the limit, with one history entry per sweep |
| MazeDp.Solver.PolicyIteration | MazeDP.py:189-224 | a limit ≤ 0 is refused; otherwise the history holds 1s then a final flag, frozen cells are kept and the final policy is greedy for the final values |
| MazeDp.Solver.PolicyRounds | MazeDP.py:206-222 | the rounds end with the documented outcome, frozen cells kept and a greedy final policy |
| MazeDp.Solver.RunRounds | MazeDP.py:206-222 | the loop runs 1 to limit rounds, stops early only when stable, and records one flag per round |
| MazeDp.Solver.PolicyRound | MazeDP.py:208-214 | one evaluation and one improvement compute one round, and the result says whether the policy was stable |
| MazeDp.Solver.GetValueFunction | MazeDP.py:272-274 | the result is a fresh copy of the value grid |
| MazeDp.Solver.GetPolicy | MazeDP.py:276-278 | the result is a fresh copy of the policy grid |
| MazeDp.Solver.GetPolicyString | MazeDP.py:280-284 | the text is empty iff the cell is out of bounds, WALL or terminal, and the action's name otherwise |
| MazeDp.Solver.Reset | MazeDP.py:286-290 | values and policy become zero and the history empty; maze, rewards and terminals are kept |
| MazeDp.Solver.GetStats | MazeDP.py:292-302 | the statistics report the shape, γ, the number of EXIT cells and the number of non-WALL cells |
| MazeDpFrame.ResetCell | MazeDpFrame.py:556-569 | an EXIT code becomes ROOM and every other code is kept |
| MazeDpFrame.ResetExits | MazeDpFrame.py:556-569 | the result is a new grid in which every EXIT became ROOM and nothing else changed; the count is the number of EXIT cells |
| MazeDpFrame.ResetRow | MazeDpFrame.py:560-567 | one row of the copy is reset and the row's EXIT cells are counted |
| MazeDpFrame.FindRoomPositions | MazeDpFrame.py:571-581 | the result is exactly the ROOM cells, in row-major order, each once |
| MazeDpFrame.BorderPositions | MazeDpFrame.py:592-602 | corners lie on a border row and a border column, edges on the border but not corners, both drawn from the room positions |
| MazeDpFrame.PlaceRandomExit | MazeDpFrame.py:583-613 | a member of the room positions becomes EXIT and no other cell changes; the corner branch picks a corner and the edge branch an edge cell |
| MazeDpFrame.CountOne | MazeDpFrame.py:539-550 | a grid where only one cell can hold a code counts that code at most once |
| MazeDpFrame.PlaceOnlyExit | MazeDpFrame.py:539-547 | placing an exit on a grid without exits leaves exactly one EXIT, on a former ROOM |
| MazeDpFrame.NewExitGrid | MazeDpFrame.py:532-554 | the new grid is the reset copy with exactly one EXIT on a former ROOM, or no exit is placed because no ROOM remains |
| MazeDpFrame.DpFrame.GenerateNewExit | MazeDpFrame.py:532-554 | with a maze, the maze is replaced by a reset copy holding exactly one EXIT on a former ROOM; without a maze or without rooms nothing changes |
| MazeBlockFrame.FormatDate | MazeBlockFrame.py:282-300 | an 8-character date becomes "DD/MM/YYYY" and any other length is kept |
| MazeBlockFrame.FormatDateReversible | MazeBlockFrame.py:282-300 | the digits of a formatted date can be read back unchanged |
| MazeBlockFrame.FormatTime | MazeBlockFrame.py:302-320 | a 6-character time becomes "HH:MM:SS" and any other length is kept |
| MazeBlockFrame.FormatTimeReversible | MazeBlockFrame.py:302-320 | the digits of a formatted time can be read back unchanged |
| MazeBlockFrame.ParseFilename | MazeBlockFrame.py:255-280 | with four or more "_"-parts the metadata is part 1 and the formatted parts 2 and 3, otherwise all "Unknown" |
| MazeBlockFrame.ParseSavedStem | MazeBlockFrame.py:263-270 | the name the generator saves parses back to its size and its formatted date and time, whose digits read back unchanged |
| MazeBlockFrame.ShortStemUnknown | MazeBlockFrame.py:272-276 | a stem with fewer than three "_" gives unknown metadata |
| MazeBlockFrame.FileSizeLabel | MazeBlockFrame.py:384-395 | sizes below 1024 are shown as "n B", then KB and MB with amounts of at least 1 |
| MazeBlockFrame.SmallSizeReadable | MazeBlockFrame.py:387-389 | a byte label ends in " B" and its digits read back as the size |
| MazeBlockFrame.Block.GetMetadata | MazeBlockFrame.py:225-229 | the first call parses the file name and caches the result; later calls return the cache unchanged |
| MazeBlockFrame.Block.Destroy | MazeBlockFrame.py:247-253 | destroying a block drops its cached metadata |
| MazeBlockFrame.MetadataIsStable | MazeBlockFrame.py:225-229 | two reads of the metadata give the same parse of the file name |
| ViewMazesPage.Search | ViewMazesPage.py:241-245 | the filter keeps exactly the files whose lower-cased stem contains the lower-cased term |
| ViewMazesPage.InsertSorted | ViewMazesPage.py:248-249 | inserting into a sorted list keeps it sorted |
| ViewMazesPage.SortSorted | ViewMazesPage.py:248-249 | the sort returns its input in non-decreasing key order |
| ViewMazesPage.SortStable | ViewMazesPage.py:248-249 | files with equal keys keep their relative order |
| ViewMazesPage.SortByNameCorrect | ViewMazesPage.py:248-249 | the name sort is a stable permutation ordered by lower-cased stem |
| ViewMazesPage.FilterAndSortSelects | ViewMazesPage.py:230-255 | with a term the result is exactly the matching files; without one it is a permutation of the input; the name sort is ordered and other options keep the filtered order |
| ViewMazesPage.Page.FilterAndSortFiles | ViewMazesPage.py:230-255 | the result is the filtered, sorted list; without a term the caller's own array is sorted in place and returned |
| ViewMazesPage.Page.OnSearchChanged | ViewMazesPage.py:414-417 | the stored term is the typed text with surrounding whitespace stripped |
| ViewMazesPage.Placement | ViewMazesPage.py:274-277 | file i goes to row i div 3 and column i mod 3, with the column below 3 |
| ViewMazesPage.PlacementInjective | ViewMazesPage.py:274-277 | different files go to different grid cells |
| FrameManager.Manager.RegisterFrame | FrameManager.py:15-17 | the name maps to the new frame and other entries are kept |
| FrameManager.Manager.ShowFrame | FrameManager.py:19-49 | an unknown name is refused with no change; otherwise the current frame, if any, is pushed even when it is the same one, and the named frame is shown |
| FrameManager.Manager.GoBack | FrameManager.py:51-64 | with an empty history nothing changes; otherwise the last entry is popped and shown and the replaced frame is not recorded |
| FrameManager.ShowThenBack | FrameManager.py:19-64 | showing a frame while another is current and then going back restores the current frame and the history |
| GenerateMazeFrame.Opposite | GenerateMazeFrame.py:33-38 | only the four direction names have an opposite, which is again a direction name |
| GenerateMazeFrame.OppositeInvolution | GenerateMazeFrame.py:33-38 | the opposite of the opposite is the direction itself, and no direction is its own opposite |
| GenerateMazeFrame.Rebalanced | GenerateMazeFrame.py:356-382 | with total ≤ 1 nothing changes; otherwise only the opposite weight changes, and it never drops below 0.01 |
| GenerateMazeFrame.RebalancedTotal | GenerateMazeFrame.py:372-379 | after rebalancing the total is max(1, total − opposite + 0.01), and exactly 1 when the opposite could absorb the excess |
| GenerateMazeFrame.Balanced | GenerateMazeFrame.py:384-394 | balanced weights are 1/4 for each direction and total 1 |
| GenerateMazeFrame.PresetNamed | GenerateMazeFrame.py:396-417 | a preset exists exactly for the listed names |
| GenerateMazeFrame.ValidateInputs | GenerateMazeFrame.py:485-509 | inputs are accepted iff width and height lie in [5, 100]; the message says whether a dimension is too small |
| GenerateMazeFrame.PresetsPassValidation | GenerateMazeFrame.py:396-417 | every preset passes validation without a weight warning |
| GenerateMazeFrame.EstimateGenerationTime | GenerateMazeFrame.py:580-590 | the estimate is "< 1" below 500 cells, "1-3" from 500 below 2000, "3-10" from 2000 below 5000 and "10+" from 5000 cells on |
| GenerateMazeFrame.EstimateMonotone | GenerateMazeFrame.py:580-590 | more cells never give a smaller estimate bucket |
| GenerateMazeFrame.Form.constructor | GenerateMazeFrame.py:74-104 | the form starts with the medium preset and balanced weights |
| GenerateMazeFrame.Form.SetWeight | GenerateMazeFrame.py:356-382 | setting a weight triggers the rebalancing of its opposite unless an update is already running |
| GenerateMazeFrame.Form.OnWeightChange | GenerateMazeFrame.py:356-382 | while an update is running nothing changes; otherwise the weights are rebalanced and the flag ends as it began |
| GenerateMazeFrame.Form.BalanceWeights | GenerateMazeFrame.py:384-394 | every weight becomes 1/4, the total is 1 and the update flag is cleared |
| GenerateMazeFrame.Form.LoadPreset | GenerateMazeFrame.py:396-417 | an unknown preset changes nothing; a known one sets its parameters and balanced weights |
| GenerateMazeFrame.Form.ValidateAllInputs | GenerateMazeFrame.py:485-509 | inputs pass iff both dimensions lie in [5, 100]; a weight total off by more than 0.01 only warns |
| MazeGamePage.NonNegative | MazeGamePage.py:533-535 | `max(0, n)` is at least n and never negative |
| MazeGamePage.Trunc | MazeGamePage.py:560 | Python's `int()` on a float is the integer within 1 of it toward zero: the floor for a non-negative value and the ceiling for a negative one |
| MazeGamePage.Format02d | MazeGamePage.py:620 | `{:02d}` of a non-negative number is its two-digit padding; of a negative number it is a minus sign followed by digits that read back as the absolute value |
| MazeGamePage.TimeBonus | MazeGamePage.py:558-561 | the bonus is non-negative, at most 500, and 0 iff 500 seconds or more were taken |
| MazeGamePage.TimeBonusAntitone | MazeGamePage.py:558-561 | taking longer never gives a larger bonus |
| MazeGamePage.KeyToMove | MazeGamePage.py:509-525 | exactly the arrow keys and w/s/a/d in either case map to a move, and every mapped move is a direction key of the engine; which key each gives is stated by KeysMoveAlike |
| MazeGamePage.KeysMoveAlike | MazeGamePage.py:509-522 | an arrow key, its lower-case letter and its upper-case letter all give the engine key of the direction the arrow points: Up, w and W give w; Down, s and S give s; Left, a and A give a; Right, d and D give d |
| MazeGamePage.MinutesSeconds | MazeGamePage.py:608-620 | for non-negative times the minutes are whole seconds div 60 and the seconds are whole seconds mod 60 |
| MazeGamePage.FormatTime | MazeGamePage.py:608-620 | a non-negative time prints as two-digit minutes, ":", and two-digit seconds |
| MazeGamePage.FormatTimeReadsBack | MazeGamePage.py:608-620 | the printed clock reads back as the whole number of seconds |
| MazeGamePage.StartEngine | MazeGamePage.py:319-323 | the new engine has a player exactly when the maze has a ROOM, and the player stands on a ROOM |
| MazeGamePage.Page.constructor | MazeGamePage.py:57-92 | the page starts idle with no maze or engine and zero moves and score |
| MazeGamePage.Page.ResetStatistics | MazeGamePage.py:373-377 | the clock, moves and score are cleared and nothing else changes |
| MazeGamePage.Page.PlayGame | MazeGamePage.py:309-351 | without a maze, or from a state other than idle or paused, nothing changes; from idle the game starts with 0 moves and score 1000; from paused it resumes with moves and score kept |
| MazeGamePage.Page.PauseGame | MazeGamePage.py:353-357 | only a playing game becomes paused; everything else is kept |
| MazeGamePage.Page.RestartGame | MazeGamePage.py:359-371 | with an original maze the page returns to idle on it with the statistics cleared; without one nothing changes |
| MazeGamePage.Page.SetMaze | MazeGamePage.py:653-672 | the maze and its original become the given grid, and the page is idle with statistics cleared |
| MazeGamePage.Page.HandleGameWon | MazeGamePage.py:553-577 | the state becomes won; with a start time the score gains the time bonus and the best time keeps the minimum |
| MazeGamePage.Page.OnKeyPress | MazeGamePage.py:503-565 | a key is used iff the game is playing, an engine exists and the key maps to a move; a successful move adds one move and lowers the score by one but not below 0. A winning move switches to the won state, adds the time bonus when the start time is set and lowers the best time to the time taken when that is shorter; otherwise the best time is kept |

## Left out

- Rendering: all matplotlib and Tk drawing, the ASCII printers, colour maps, styles and message boxes.
- File and directory I/O: JSON and PNG writing in `save_maze`, loading and deleting files, directory listing. Only the saved file name is modelled.
- Threads and asynchronous refresh, which exist only to keep the user interface responsive.
- Logging, and the console game loop that reads `input()`.
- The float key `random() ** (1 / weight)` of `weighted_shuffle` and `get_weighted_directions`. The generator receives the direction order as an oracle that returns some permutation of the four directions. The constructor requires positive weights instead of modelling the division by zero that a weight of 0 causes.
- Concrete random values (`random`, `randint`, `random.choice`, numpy's seeded generator) and `time.time()`. They are parameters.
- Floating point: values, rewards, probabilities and weights are exact reals. Nothing is claimed about convergence speed, rounding, or the float meaning of the 1e-6 and 0.01 tolerances.
- GenerateMazeFrame.RebalancedTotal: the sum is exactly 1 for exact reals only. The form stores each weight as its `%.2f` text, so the stored weights are rounded; after setting 0.333 with 0.25, 0.25 and 0.25 the opposite weight is stored as 0.17 and the stored total is 1.003.
- GenerateMazeFrame.Rebalanced: the model keeps the exact rebalanced weights and not the two-decimal text the form writes back.
- The debug branch of `generate`, which prints and draws extra random numbers. The model has debugging switched off.
- `AppUtilities`, `AppConfig`, `LegacyMazeConfig`, `create_maze_config`, `total_cells`, `get_cell_value` and the `__str__`/`__repr__` methods. These are parsing wrappers, constant tables, delegation and one-line helpers that nothing in the model relies on.
- The "date" and "size" sorts of the maze list, which read the file system. ViewMazesPage.FilterAndSort treats every option other than "name" as leaving the filtered order unchanged.
- The room counts shown on MazeDpFrame.py:636 and MazeBlockFrame.py:411, which count code 1 although ROOM is 0. They are display-only.
- The statistics of `get_stats` that are float aggregates (maximum, minimum and mean value).
- The `ValueError` paths of reading the form's text fields. The form's fields hold numbers.
- Text.Lower: only the ASCII capitals are lower-cased. Python's `str.lower` also maps other capitals, so "MAZÉ".lower() is "mazé" while the model keeps the É.
- ViewMazesPage.Search: the case-insensitive match uses the ASCII-only Text.Lower, so a search for "é" does not find a file named "MAZÉ" as Python would.
- ViewMazesPage.SortByNameCorrect: names are ordered by their ASCII-lower-cased text; names that differ only in a non-ASCII capital may sort differently from Python.
- ViewMazesPage.FilterAndSortSelects: the filter and the name sort inherit the ASCII-only lower-casing of Text.Lower.
- ViewMazesPage.Page.FilterAndSortFiles: the filter and the name sort inherit the ASCII-only lower-casing of Text.Lower.
- ViewMazesPage.Page.OnSearchChanged: the stored search term is stripped with Python's whitespace set, but the later match inherits the ASCII-only lower-casing of Text.Lower.
- MazeConfig.UnknownKeysIgnored: a key counts as known only when it names a configuration field. Python's `hasattr` is also true for methods and properties, so `{"total_cells": 1}` raises AttributeError on the read-only property and `{"copy": 1}` replaces the `copy` method; neither is modelled.
- MazeConfig.Config.ApplyPresetModifications: every value given for a known field is required to have that field's type (`Fits`). Python's `setattr` accepts any value, such as `maze_width=10.5`, and only later code may fail on it.
- MazeConfig.FromKeywords: a value of the wrong type for its field is an error in the model. Python's dataclass constructor accepts it without a check.
- Python's negative indexing and `IndexError`. The generator's start cell is required to be in bounds.
- Malformed input grids: the grids are required to be rectangular, as every caller builds them.
- Aliasing: `to_dict` shares the weight dictionary with the configuration and `from_dict` mutates its argument. The model builds new values.
- MazeGenerator.Generator.constructor: the generator copies the configuration's values. The source keeps a shared reference, which later changes to the configuration would reach.
- MazeGamePage.Page.HandleGameWon: when the start time is unset the source goes on to show `time_taken`, which was never assigned, and raises `UnboundLocalError`. The model only records the won state.
- MazeGame.Game.LoadGameState: a saved state is required to hold positions inside its own maze (the `Loadable` condition). The source does not check this.
- MazeConfig.ValidateConfig: the message for missing directions stops at "direction_weights must contain all directions". The source appends ": " and the repr of the set of required names, whose order depends on Python's string hashing, so that text is not fixed.
- FrameManager.Manager.ShowFrame: the page hooks `on_show`, `refresh` and `set_maze` are assumed to return normally. If one raises, the source returns False after the current frame and the history have already changed; the model does not capture that case.
- MazeGame.Game.LoadGameState: a state whose "stats" entry is None is not modelled. The source assigns the maze, the positions and the flags, then raises AttributeError on `None.get(...)` when reading the move count and returns False with that partial state kept.
- MazeDp.Solver.GetStats: it reports only the counts (shape, γ, terminals and non-WALL cells).
- MazeDp.Solver.PolicyIteration: the random initial action that numpy's seed-42 generator draws is a parameter. Because the generator is re-seeded for every cell, all cells get the same action; that is what is modelled.
- Helper members split one source function into steps so that each step can be proved on its own. These are ScanNeighbors, MarkAround, GrowRooms, VisitNeighbors, DecideNeighbor, PlayerCell, PlayerThenExit, ChooseExit, ExitNearCorners, ExitNearAny, ExitNearCorner, CornersFurthestFirst, FallbackExit, ResetRow, NewExitGrid, PlaceOnlyExit, SweepUntil, the row and cell sweep methods, RunRounds, PolicyStep, PolicyRound and StartEngine. They have no separate counterpart in the source.

## Findings

| source | as written | input that shows it | evidently intended | confidence | as-written member | corrected member |
|---|---|---|---|---|---|---|
| MazeGame.py:195 | `is_walkable` compares an integer cell code with the enum member `CellType.WALL`. A plain `Enum` member never equals an int, so every in-bounds cell is walkable. | the 1×1 maze `[[-1]]` at (0, 0) | compare with `CellType.WALL.value`: a WALL cell is not walkable | high; not executed | MazeGame.Game.WallWalkableAsWritten | MazeGame.Game.IsWalkable |
| MazeGame.py:215 | `get_available_rooms` compares cell codes with the enum member `CellType.ROOM`, so no cell ever matches and the list is always empty. The fallback branches of `generate_exit` can then never choose a room. | the 1×1 maze `[[0]]` with no player | compare with `CellType.ROOM.value`: every ROOM cell is listed | high; not executed | MazeGame.Game.AvailableRoomsLostAsWritten | MazeGame.Game.GetAvailableRooms |
