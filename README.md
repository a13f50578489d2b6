# Pac-Man grid core in Dafny

A model of the game rules of a single-screen Android Pac-Man and of its
statistics/settings store, with proofs of what those rules promise.

The game is played on a 17 x 15 maze of cells `map[y][x]` holding 0
(empty), 1 (wall), 2 (dot) or 3 (power pellet). The model covers:

- **Maze building** (`Maze`): `resetMap` writes the border and the dots,
  stamps the wall template of the level (fixed segments for levels 0 to 2,
  the stored random wall list for level 3), then places the four power
  pellets. Each step is an in-place loop over the `array2<int>` maze.
- **Procedural layout** (`Layout`): the generator samples walls over the
  left half and mirrors them. `isLayoutValid` is a breadth-first flood fill
  from Pac-Man's spawn over a `visited` array and a queue. It is proved to
  answer true exactly when every interior non-wall cell is reachable.
- **Ghost decisions** (`GhostAI`): the candidate filter in the order
  right, left, down, up; dropping the reverse heading; the per-kind target;
  and `minByOrNull`, which keeps the first minimum. Distances use doubled
  coordinates: cell centres become (2x+1, 2y+1), which keeps every
  comparison exact.
- **The frame loop** (`Game`): the game screen's state is a class. Its
  methods cover the queued turn, Pac-Man's step, dot and pellet collection,
  the ghosts' moves, the overlap test, the power countdown, respawn and
  `fullReset`. Every method keeps the invariant `Valid()`. That invariant
  says the maze is walled, Pac-Man is inside it, the score is non-negative,
  power is coherent and the three ghosts stand on open cells with open
  homes and headings the game can store.
- **Float motion as written** (`Motion`): a frame-by-frame model of
  `moveGhostSmooth` in hundredths of a cell. It exhibits the finding below.
- **The store** (`Store`): `GameStateManager` over an in-memory map
  from key to stored value, with Kotlin's 32-bit `Int` and its wrap-around.

Moves are whole-cell steps. Pac-Man enters the next cell only when the
cell he is in and that cell are both open. This reproduces a quirk of the
level-2 template. Its centre column x = 7, rows 6 to 10, covers Pac-Man's
spawn (7, 8), so on level 2 he starts inside a wall and no heading moves
him (`Maze.Level2StartIsWall`, `Game.TrappedOnLevel2`).

Randomness is a parameter: the generator reads its numbers from a sequence
`draws`, 70 per attempt. When the numbers run out before an attempt is
accepted, the generator returns `None`. The real loop would simply draw
again.

## Model

| member | source | states |
|---|---|---|
| `Maze.FillBase` | app/src/main/java/com/example/pacman/PacmanGame.kt:215-217 | every border cell becomes a wall and every interior cell a dot |
| `Maze.StampSegment` | app/src/main/java/com/example/pacman/PacmanGame.kt:221-233 | one template loop turns exactly the cells of its row or column run into walls and keeps every other cell |
| `Maze.StampTemplate` | app/src/main/java/com/example/pacman/PacmanGame.kt:219-234 | after the fixed template of a level, a cell is a wall iff it is on the border or on one of the level's segments, and a dot otherwise |
| `Maze.StampWalls` | app/src/main/java/com/example/pacman/PacmanGame.kt:235-242 | on level 3 a cell is a wall iff it is on the border or in the stored list; listed cells off the grid are ignored |
| `Maze.PlacePellets` | app/src/main/java/com/example/pacman/PacmanGame.kt:245-255 | each pellet cell holds a pellet exactly when the template did not make it a wall; nothing else changes |
| `Maze.ResetMap` | app/src/main/java/com/example/pacman/PacmanGame.kt:214-257 | the whole maze equals the cell-by-cell description of a reset level, and the border is walled |
| `Maze.CoveredMeansOnSome` | app/src/main/java/com/example/pacman/PacmanGame.kt:219-234 | a cell is covered by a template iff it lies on one of its segments |
| `Maze.HomesAndPelletsOpen` | app/src/main/java/com/example/pacman/PacmanGame.kt:245-255 | for every level and every layout the generator can produce, the three ghost homes are dots and the four pellet cells hold pellets |
| `Maze.StartOpen` | app/src/main/java/com/example/pacman/PacmanGame.kt:219-243 | on every level but 2, for every layout the generator can produce, Pac-Man's spawn is a dot |
| `Maze.Level2StartIsWall` | app/src/main/java/com/example/pacman/PacmanGame.kt:233 | the level-2 column covers Pac-Man's spawn (cols/2, rows/2) |
| `Layout.Visit` | app/src/main/java/com/example/pacman/PacmanGame.kt:176-182 | one neighbour test marks and enqueues the neighbour exactly when it is interior, unvisited and not a wall; every enqueued cell is reachable |
| `Layout.Expand` | app/src/main/java/com/example/pacman/PacmanGame.kt:174-183 | one round of the fill marks every passable neighbour of the dequeued cell; the marks stay exactly the cells seen, and all of them are reachable |
| `Layout.FloodFill` | app/src/main/java/com/example/pacman/PacmanGame.kt:167-184 | when the queue empties, the visited cells are exactly the cells reachable from the spawn |
| `Layout.IsLayoutValid` | app/src/main/java/com/example/pacman/PacmanGame.kt:165-192 | true iff every interior non-wall cell is reachable from the spawn by 4-neighbour steps through interior non-wall cells |
| `Layout.AddKeepsShaped` | app/src/main/java/com/example/pacman/PacmanGame.kt:199-206 | adding a sampled cell outside the spawn and ghost areas, together with its mirror image, keeps the list inside rows 2..rows-3 and columns 2..cols-3, away from the spawn and the ghost corners, and mirror-symmetric |
| `Layout.SampleCell` | app/src/main/java/com/example/pacman/PacmanGame.kt:198-206 | a cell outside the spawn and ghost areas consumes the next draw, and a draw under 0.25 adds the cell and its mirror image; the pass reports the attempt incomplete only when the draws cannot cover it |
| `Layout.SampleRow` | app/src/main/java/com/example/pacman/PacmanGame.kt:198-207 | the inner loop over columns 2 .. cols/2 extends the list by exactly that row's wall pairs and consumes one draw per sampled cell of the row |
| `Layout.ScanWallsSoFar` | app/src/main/java/com/example/pacman/PacmanGame.kt:196-207 | partway through the scan, the list holds the wall pairs of exactly the sampled cells scanned so far whose draw was under 0.25 |
| `Layout.SampleWalls` | app/src/main/java/com/example/pacman/PacmanGame.kt:196-207 | an attempt is complete iff its 70 draws are there, and then consumes exactly those 70; a cell is a wall iff its own draw or its mirror image's draw is under 0.25; every list is mirror-symmetric, in rows 2..rows-3 and columns 2..cols-3, and clear of the spawn and ghost corners |
| `Layout.FirstConnectedIsFirst` | app/src/main/java/com/example/pacman/PacmanGame.kt:194-209 | the do-while ends on the earliest complete attempt the flood fill accepts, every earlier attempt being rejected; there is none exactly when no complete attempt is accepted |
| `Layout.GenerateRandomLayout` | app/src/main/java/com/example/pacman/PacmanGame.kt:194-211 | the result is the wall set of the first accepted attempt, and there is no result exactly when no complete attempt within the draws is accepted; every result is connected and has the sampled shape |
| `GhostAI.OpenAmong` | app/src/main/java/com/example/pacman/PacmanGame.kt:671-676 | the filter keeps exactly the directions whose neighbour is on the grid and not a wall, in try order |
| `GhostAI.Without` | app/src/main/java/com/example/pacman/PacmanGame.kt:677 | the filterNot removes exactly the reverse heading and keeps the order |
| `GhostAI.CandidatesAre` | app/src/main/java/com/example/pacman/PacmanGame.kt:677 | a direction is a candidate iff it is open and is not the reverse heading, unless it is the only open direction |
| `GhostAI.Candidates` | app/src/main/java/com/example/pacman/PacmanGame.kt:671-677 | the candidate list holds exactly the candidates, in the order right, left, down, up |
| `GhostAI.Target` | app/src/main/java/com/example/pacman/PacmanGame.kt:684-709 | CHASER aims at Pac-Man; AMBUSH at Pac-Man plus four cells along his heading, unclamped; RANDOM at Pac-Man beyond Manhattan distance 8 and otherwise at (1, lastIndex - 1) |
| `GhostAI.FirstMin` | app/src/main/java/com/example/pacman/PacmanGame.kt:685-707 | minByOrNull: the index of a least score, with every earlier entry scoring strictly more |
| `GhostAI.FirstMinOfOrdered` | app/src/main/java/com/example/pacman/PacmanGame.kt:685-707 | over an ordered list, no listed direction scores less than the first minimum, and every listed direction of lower rank scores strictly more |
| `GhostAI.ChooseDirection` | app/src/main/java/com/example/pacman/PacmanGame.kt:670-712 | no choice iff there is no candidate; otherwise a candidate whose neighbour is closest to the kind's target, with ties going to the earliest in try order |
| `GhostAI.GhostStep` | app/src/main/java/com/example/pacman/PacmanGame.kt:678-717 | the ghost either stays with heading (0, 0) or enters the open neighbour in its new unit heading |
| `GhostAI.GhostStepTakesCandidate` | app/src/main/java/com/example/pacman/PacmanGame.kt:671-683 | the new heading is a candidate, and the ghost stops exactly when there is none |
| `GhostAI.NoReverseWithChoice` | app/src/main/java/com/example/pacman/PacmanGame.kt:677 | the ghost never reverses while another direction is open |
| `GhostAI.MovesWhenSomewhereOpen` | app/src/main/java/com/example/pacman/PacmanGame.kt:671-683 | a ghost with any open neighbour moves |
| `Motion.Glide` | app/src/main/java/com/example/pacman/PacmanGame.kt:727-760 | a still ghost stays put; a moving ghost advances 0.08 along its heading iff the target-cell and boundary-crossing wall tests pass, and otherwise stops at the centre of its cell with heading (0, 0) |
| `Motion.FrameAsWritten` | app/src/main/java/com/example/pacman/PacmanGame.kt:666-761 | off the grid centre a moving ghost only glides; at the centre or standing still it stops in place with no candidate, and otherwise takes the chosen heading from its cell's centre, or stops there |
| `Motion.RunAsWritten` | app/src/main/java/com/example/pacman/PacmanGame.kt:446-448 | frame after frame with the decisions ChooseDirection makes, a ghost's heading stays (0, 0) or a unit step |
| `Motion.FrameStaysNearCentre` | app/src/main/java/com/example/pacman/PacmanGame.kt:666-761 | a ghost within one frame's move of its cell's centre is still that close after one frame as written, whatever it decides |
| `Motion.GhostNeverLeavesCell` | app/src/main/java/com/example/pacman/PacmanGame.kt:666-761 | as written, a ghost that starts at a cell centre stays in that cell for any number of frames |
| `Motion.ChaserStaysHome` | app/src/main/java/com/example/pacman/PacmanGame.kt:279 | with Pac-Man held on his spawn and standing still, the CHASER ghost spawned at (1.5, 1.5) is in cell (1, 1) after any number of frames |
| `Game.PowerTick` | app/src/main/java/com/example/pacman/PacmanGame.kt:325-335 | when paused or out of time nothing changes; otherwise time drops by at most 100 and never below 0, power ends exactly when it reaches 0, and coherent power stays coherent |
| `Game.PowerRunsDown` | app/src/main/java/com/example/pacman/PacmanGame.kt:325-335 | from t ms of power, n unpaused runs leave t - 100n if positive and otherwise no power and 0 |
| `Game.PowerAfterUnpowered` | app/src/main/java/com/example/pacman/PacmanGame.kt:327 | runs of the countdown leave an unpowered Pac-Man unpowered |
| `Game.PelletPowerLasts80Ticks` | app/src/main/java/com/example/pacman/PacmanGame.kt:325-335 | 8000 ms of power still holds after 79 runs and ends on exactly the 80th |
| `Game.PacMove` | app/src/main/java/com/example/pacman/PacmanGame.kt:387-430 | Pac-Man enters the next cell iff the cell he is in and that cell are open; otherwise a blocked move zeroes his heading |
| `Game.Turn` | app/src/main/java/com/example/pacman/PacmanGame.kt:373-384 | a queued non-zero turn whose neighbour is open becomes the heading and empties the queue; otherwise heading and queue stay as they were |
| `Game.TrappedOnLevel2` | app/src/main/java/com/example/pacman/PacmanGame.kt:391-402 | on a reset level-2 maze no heading moves Pac-Man off his spawn |
| `Game.Home` | app/src/main/java/com/example/pacman/PacmanGame.kt:279-281 | reference table of the homes: (1, 1), (cols-2, 1) and (1, rows-2) for CHASER, RANDOM and AMBUSH, each one of the three home cells |
| `Game.Spawn` | app/src/main/java/com/example/pacman/PacmanGame.kt:279-281 | a fresh ghost of a kind is at that kind's home and is a fixed point of the delayed respawn |
| `Game.HomesOpen` | app/src/main/java/com/example/pacman/PacmanGame.kt:277-283 | after resetMap every ghost's home is open |
| `Game.SpawnedOk` | app/src/main/java/com/example/pacman/PacmanGame.kt:277-283 | the replaced ghost list is one ghost of each kind, at an open home, standing still |
| `Game.Moved` | app/src/main/java/com/example/pacman/PacmanGame.kt:446-448 | an alive ghost takes its step and a dead one is skipped; kind, home and aliveness are kept, and a valid ghost stays valid |
| `Game.MoveAll` | app/src/main/java/com/example/pacman/PacmanGame.kt:446-448 | the forEach moves every ghost of the list, in place and in order |
| `Game.MovedKeepsOk` | app/src/main/java/com/example/pacman/PacmanGame.kt:446-448 | moving the ghosts keeps every ghost on an open cell with an open home |
| `Game.Captured` | app/src/main/java/com/example/pacman/PacmanGame.kt:452-457 | a ghost dies iff it was alive, in Pac-Man's cell and he is powered; nothing else about it changes |
| `Game.CaptureAll` | app/src/main/java/com/example/pacman/PacmanGame.kt:451-468 | the overlap loop captures as above, reports a catch iff an alive ghost meets an unpowered Pac-Man, and lists exactly the captured ghosts |
| `Game.Catches` | app/src/main/java/com/example/pacman/PacmanGame.kt:463-465 | game over needs an unpowered Pac-Man and an alive ghost in his cell, and those two together end the game |
| `Game.CatchesAfterCapture` | app/src/main/java/com/example/pacman/PacmanGame.kt:451-468 | capturing ghosts never changes whether the frame ends the game, since captures happen only while Pac-Man is powered |
| `Game.CapturedKeepsOk` | app/src/main/java/com/example/pacman/PacmanGame.kt:451-468 | captures keep every ghost on an open cell with an open home |
| `Game.Respawned` | app/src/main/java/com/example/pacman/PacmanGame.kt:460-461 | reference definition of the respawn: kind and home are kept, and the ghost is back at its home, with heading (0, 0), alive |
| `Game.Eat` | app/src/main/java/com/example/pacman/PacmanGame.kt:432-443 | the score grows by one exactly on a dot or a pellet, which becomes empty, and a pellet also gives 8000 ms of power; any other cell leaves cell and tally alone; walls stay walls and coherent power stays coherent |
| `Game.Game.constructor` | app/src/main/java/com/example/pacman/PacmanGame.kt:111-129 | the first screen, after fullReset(0), is valid, on the level-0 maze, with Pac-Man on his spawn and the ghosts at home |
| `Game.Game.FullReset` | app/src/main/java/com/example/pacman/PacmanGame.kt:269-285 | score, headings and power are zeroed, the maze is the reset level, Pac-Man is on his spawn, the ghosts are fresh at home, game over is cleared, and the state is valid |
| `Game.Game.QueueTurn` | app/src/main/java/com/example/pacman/PacmanGame.kt:654-660 | an arrow button queues its direction and keeps the state valid |
| `Game.Game.TryTurn` | app/src/main/java/com/example/pacman/PacmanGame.kt:373-384 | the heading and the queued turn become what Turn makes of the old ones, and the state stays valid |
| `Game.Game.MovePac` | app/src/main/java/com/example/pacman/PacmanGame.kt:387-430 | Pac-Man's new cell and heading are those of PacMove, and the state stays valid |
| `Game.Game.Collect` | app/src/main/java/com/example/pacman/PacmanGame.kt:432-443 | a dot becomes empty and scores 1; a pellet becomes empty, scores 1 and powers for 8000 ms; any other cell changes nothing; no other cell changes |
| `Game.Game.MoveGhosts` | app/src/main/java/com/example/pacman/PacmanGame.kt:445-448 | every ghost is replaced by its moved self, against Pac-Man's cell and heading after his move |
| `Game.Game.ResolveCollisions` | app/src/main/java/com/example/pacman/PacmanGame.kt:450-468 | ghosts are captured as in Captured; game over is set iff it was set or an alive ghost met an unpowered Pac-Man; the captured ghosts are returned for respawn |
| `Game.Game.RespawnGhost` | app/src/main/java/com/example/pacman/PacmanGame.kt:458-462 | exactly the one ghost is respawned, and the state stays valid |
| `Game.Game.CountdownTick` | app/src/main/java/com/example/pacman/PacmanGame.kt:325-335 | the power becomes PowerTick of the old power |
| `Game.Game.NewRandomLayout` | app/src/main/java/com/example/pacman/PacmanGame.kt:161-212 | a layout is stored exactly when the generator finds one; it is then the first accepted attempt's wall set, which is connected; otherwise the old layout is kept |
| `Game.Game.Steer` | app/src/main/java/com/example/pacman/PacmanGame.kt:369-430 | the queued turn is taken as Turn says and then Pac-Man moves as PacMove says under the new heading |
| `Game.Game.PlayPac` | app/src/main/java/com/example/pacman/PacmanGame.kt:369-443 | Pac-Man steers and moves as in Steer, then the cell he lands on and the score and power become what Eat makes of them; no other cell and not the layout change |
| `Game.Game.PlayGhosts` | app/src/main/java/com/example/pacman/PacmanGame.kt:445-468 | every ghost becomes Captured of its Moved self, game over is set iff it was set or Catches holds for the moved ghosts, and exactly the newly dead ghosts are returned, none when Pac-Man is unpowered |
| `Game.Game.Play` | app/src/main/java/com/example/pacman/PacmanGame.kt:369-468 | one frame is PlayPac followed by PlayGhosts, against Pac-Man's cell and heading after his move, and keeps the state valid |
| `Game.Game.FirstFrame` | app/src/main/java/com/example/pacman/PacmanGame.kt:362-468 | the frame right after fullReset: Pac-Man is on his spawn, still, with the spawn cell eaten (level 2: a wall, and no score), every other cell as reset, the ghosts moved once from home, and game over iff one of them reached the spawn |
| `Game.Game.Tick` | app/src/main/java/com/example/pacman/PacmanGame.kt:362-468 | nothing changes while paused or while the selector is shown; otherwise a running game plays one frame as in Play, and a finished one is reset by fullReset and then plays its first frame as in FirstFrame; the stored layout is never changed |
| `Store.Wrap` | app/src/main/java/com/example/pacman/GameStateManager.kt:38-41 | Kotlin's Int addition: exact in range, and congruent modulo 2^32 otherwise |
| `Store.IntOr` | app/src/main/java/com/example/pacman/GameStateManager.kt:47-69 | reference reading of getInt: the stored Int, or the default for a missing key |
| `Store.BoolOr` | app/src/main/java/com/example/pacman/GameStateManager.kt:87-96 | reference reading of getBoolean: the stored Boolean, or the default for a missing key |
| `Store.StringOr` | app/src/main/java/com/example/pacman/GameStateManager.kt:101-103 | reference reading of getString(...) ?: default: the stored String, or the default for a missing key |
| `Store.HighScore` | app/src/main/java/com/example/pacman/GameStateManager.kt:47-49 | returns what the high score key holds, and 0 when it is absent |
| `Store.LastScore` | app/src/main/java/com/example/pacman/GameStateManager.kt:54-56 | returns what the last score key holds, and 0 when it is absent |
| `Store.GamesPlayed` | app/src/main/java/com/example/pacman/GameStateManager.kt:61-63 | returns what the games-played key holds, and 0 when it is absent |
| `Store.TotalDotsCollected` | app/src/main/java/com/example/pacman/GameStateManager.kt:68-70 | returns what the dots-total key holds, and 0 when it is absent |
| `Store.UseGyroscope` | app/src/main/java/com/example/pacman/GameStateManager.kt:87-89 | returns what the gyroscope key holds, and false when it is absent |
| `Store.UseLightSensor` | app/src/main/java/com/example/pacman/GameStateManager.kt:94-96 | returns what the light-sensor key holds, and true when it is absent |
| `Store.SelectedTheme` | app/src/main/java/com/example/pacman/GameStateManager.kt:101-103 | returns what the theme key holds, and "SYSTEM" when it is absent |
| `Store.GameSpeed` | app/src/main/java/com/example/pacman/GameStateManager.kt:115-117 | returns what the game-speed key holds, and 200 when it is absent |
| `Store.DifficultyLevel` | app/src/main/java/com/example/pacman/GameStateManager.kt:129-131 | returns what the difficulty key holds, and 1 when it is absent |
| `Store.ScoreSaved` | app/src/main/java/com/example/pacman/GameStateManager.kt:29-42 | the high score becomes max(old high, score), the last score is the score, games played grows by 1 and the dots total by the score (with wrap-around), and every other key is unchanged |
| `Store.SettingsSaved` | app/src/main/java/com/example/pacman/GameStateManager.kt:75-82 | the three settings getters return the saved values and every other key is unchanged |
| `Store.SpeedSaved` | app/src/main/java/com/example/pacman/GameStateManager.kt:108-117 | getGameSpeed returns the saved speed and every other key is unchanged |
| `Store.DifficultySaved` | app/src/main/java/com/example/pacman/GameStateManager.kt:122-131 | getDifficultyLevel returns the saved level and every other key is unchanged |
| `Store.SessionReset` | app/src/main/java/com/example/pacman/GameStateManager.kt:143-150 | the last score is 0, the high score is unchanged, and every other key is unchanged |
| `Store.EmptyStoreDefaults` | app/src/main/java/com/example/pacman/GameStateManager.kt:47-131 | on an empty store the getters return 0, 0, 0, 0, false, true, "SYSTEM", 200 and 1 |
| `Store.HighScoreIsBest` | app/src/main/java/com/example/pacman/GameStateManager.kt:29-34 | over any run of saved games, the high score is the best of the old high and every score, so it never decreases |
| `Store.GamesCounted` | app/src/main/java/com/example/pacman/GameStateManager.kt:37-38 | over any run of saved games, games played grows by their number, modulo 2^32 |
| `Store.DotsTotalled` | app/src/main/java/com/example/pacman/GameStateManager.kt:40-41 | over any run of saved games, the dots total grows by the sum of their scores, modulo 2^32 |
| `Store.GameStateManager.constructor` | app/src/main/java/com/example/pacman/GameStateManager.kt:10-12 | the manager starts from the store as the device holds it |
| `Store.GameStateManager.SaveScore` | app/src/main/java/com/example/pacman/GameStateManager.kt:29-42 | the store becomes ScoreSaved of the old store |
| `Store.GameStateManager.SaveSettings` | app/src/main/java/com/example/pacman/GameStateManager.kt:75-82 | the store becomes SettingsSaved of the old store |
| `Store.GameStateManager.SaveGameSpeed` | app/src/main/java/com/example/pacman/GameStateManager.kt:108-110 | the store becomes SpeedSaved of the old store |
| `Store.GameStateManager.SaveDifficultyLevel` | app/src/main/java/com/example/pacman/GameStateManager.kt:122-124 | the store becomes DifficultySaved of the old store |
| `Store.GameStateManager.ClearAllData` | app/src/main/java/com/example/pacman/GameStateManager.kt:136-138 | the store is empty and every getter returns its default |
| `Store.GameStateManager.ResetSessionData` | app/src/main/java/com/example/pacman/GameStateManager.kt:143-150 | the store becomes SessionReset of the old store |

## Left out

- Sub-cell float motion is not modelled: the 0.08 speed, the 0.6 probe, the 0.3 and 0.2 grid-centre tolerances, re-alignment to the centre, and the 0.5 overlap threshold (PacmanGame.kt:370, 387-430, 453-455, 668, 715-761). Each move is one whole cell, and an overlap means sharing a cell. `Motion` models the ghost's float frames only to show the finding below.
- Ghost scoring uses the centre of the ghost's cell, not its float position (686, 693, 698, 700, 705). A ghost decides only near a cell centre, so the two agree up to the sub-cell offset.
- Coroutines and timing are not modelled: the frame delay, the 1000 ms game-over pause, the 3000 ms respawn delay, the resume countdown and the mouth animation (315-322, 360-366, 458-462, 474-484). The countdown run (`CountdownTick`) and the respawn (`RespawnGhost`) are explicit operations instead. `Tick` returns the captured ghosts, whose respawn a caller may apply later.
- The Ghost record is a value held in the game's list, and every in-place field write replaces its list entry. The aliasing of the delayed respawn is not captured. In the source, a respawn still pending when fullReset replaces the list writes to the discarded ghost object and is lost. Here `RespawnGhost(i)` always acts on the ghost at index `i`.
- Layout.GenerateRandomLayout: returns `None` only when the draws run out before any complete attempt is accepted. The source's do-while keeps drawing, and could in principle never end.
- `possible.random()` (710) is not modelled: the candidate list is non-empty at that point, so `minByOrNull` never returns null.
- The level selector's preview redraws are not modelled (260-267, 531-534). While the selector is shown the frame loop does not run, and Confirm (648) always runs fullReset, which rebuilds the maze. The stored random layout is still produced by `NewRandomLayout`.
- Input and device glue are not modelled: the accelerometer and light-sensor listeners, the biometric lock, theme and brightness colour arithmetic, pause and settings buttons, and all drawing. `QueueTurn` covers what a tilt or an arrow button does to the queued turn.
- The score `collectedDots` is an unbounded integer; Kotlin's Int could in principle wrap. The score grows by at most 1 per frame and is bounded by the number of dots between resets, so it never reaches 2^31.
- Store.IntOr, Store.BoolOr, Store.StringOr: a key that holds a value of another type yields the default here, where Android's getters would throw ClassCastException.
- SharedPreferences persistence (a file on the device, asynchronous `apply()`) is not modelled; the store is an in-memory map.

## Findings

| source | as written | input that shows it | evidently intended | confidence | as-written member | corrected member |
|---|---|---|---|---|---|---|
| app/src/main/java/com/example/pacman/PacmanGame.kt:668-717 | a ghost counts as "at the grid centre" within 0.2 of the centre, and there it re-decides and snaps back to the centre; one frame moves it only 0.08 | the CHASER ghost at its spawn (1.5, 1.5) with corridor (2, 1) open: after a frame it is at 1.58, still within 0.2, so it is snapped back to 1.5 before the next move, every frame | ghosts travel from cell to cell, turning only at cell centres | not executed | `Motion.GhostNeverLeavesCell` | `GhostAI.MovesWhenSomewhereOpen` |

The rest of the model uses the whole-cell step `GhostAI.GhostStep`. There,
a ghost with an open neighbour always leaves its cell
(`GhostAI.MovesWhenSomewhereOpen`).
