# Pac-Man "Jason", classic Pac-Man, the leaflet comparator and the chunker, in Dafny

This project models the logic at the heart of a set of student projects and proves
what that logic promises.

- **The Pac-Man "Jason" game.**
  - `maze_generator.py`: `gerar_labirinto`, which carves a maze by a randomised depth-first search, removes dead ends, scatters pellets and stamps a ghost house.
  - `pathfinding.py`: the breadth-first next step towards a target, and the nearest-walkable-cell search.
  - `entities.py`: the `Player` and `Ghost` state machines.
  - `game.py`: the `Game` tick loop, with its pauses, cadence counters, ghost release, collisions, lives, respawn and win check.
  - `utils.py`: the `name;score` scores file format.
  - `Codigocompleto.py` lines 69-571 are a copy of these five files. They are modelled once, and the rows below cite the separate files.
- **The classic variant** (`Pro03/Pacman.py`): wrap-around movement, greedy no-reverse ghost steering, the scatter/chase clock, collisions and the restart.
- **The leaflet comparator** (`Pro02/comparador_de_bulas.py`): word normalisation, splitting a leaflet into its sections, the word diff with its HTML marking, and the summary of removed and added words with their pages.
- **The document summariser's text handling** (`Pro01/ExigenciaApp.py`): `chunk_text` and the prompts sent to the model.

Files and modules:

| file | module | what it holds |
|---|---|---|
| `wrappers.dfy` | `Wrappers` | `Option` |
| `config.dfy` | `Config` | the game constants (rows, columns, delays, durations, lives) |
| `random.dfy` | `Random` | the random source as an explicit value; CPython's `randbelow`, `randrange`, `shuffle` and `sample` draw from it |
| `grid.dfy` | `Grid` | the integer grid, cell codes, walks and reachability |
| `carving.dfy` | `Carving` | the depth-first carving (`dfs`, `vizinhos_validos`) |
| `maze_generator.dfy` | `MazeGenerator` | the dead-end loop, pellets, the ghost house, `gerar_labirinto` |
| `pathfinding.dfy` | `Pathfinding` | `bfs_next_step`, `find_nearest_walkable_global` |
| `entities.dfy` | `Entities` | `Player` and `Ghost` as classes; target selection |
| `game.dfy` | `Game` | `Game` as a class |
| `text.dfy` | `PyText` | Python string operations: `strip`, `splitlines`, `split`, `lower`, `join` |
| `scores.dfy` | `Scores` | `carregar_placares` and `salvar_placar` over the file's contents, read with universal newlines as text mode does |
| `classic_rules.dfy` | `ClassicRules` | the classic variant's pure rules: wrap-around, steering, ghost modes, the global clock |
| `classic.dfy` | `Classic` | the classic variant's `Player`, `Ghost` and game state as classes |
| `leaflet_text.dfy` | `LeafletText` | `normalize_text`, `normalize_title` |
| `leaflet_sections.dfy` | `LeafletSections` | `split_full_text_into_sections` |
| `leaflet_compare.dfy` | `LeafletCompare` | `compare_content`, `html.escape` |
| `leaflet_report.dfy` | `LeafletReport` | the page index and summary of `build_section_htmls` |
| `chunks.dfy` | `Chunking` | `chunk_text`, the prompts |

How things are modelled:

- **Mutable state becomes classes.** Entities and games that update fields become classes, with field-level `modifies` clauses.
- **The maze is a value.** It is a `seq<seq<int>>` that methods return or that a game field holds.
- **Randomness is a parameter.** It is an `Rng` value threaded through the methods, so every random choice is an injected draw.
- **A dictionary of lists becomes a `map` of sequences.** A Python `set` of pages becomes a strictly increasing sequence of pages.
- **Floating point is replaced.** `math.hypot` comparisons become comparisons of squared integer distances, which order the moves the same way.

## Model

| member | source | states |
|---|---|---|
| Random.RandRange2 | maze_generator.py:27-28 | `randrange(start, stop, 2)` returns a value in `[start, stop)` with the parity of `start`, using one draw |
| Random.Below | maze_generator.py:27-28 | `randbelow(n)` uses one draw and gives a value in `[0, n)` |
| Random.Chance | maze_generator.py:54 | the power-pellet coin uses exactly one draw |
| Random.Shuffle | maze_generator.py:43 | `random.shuffle` returns a permutation of its input |
| Random.Sample | entities.py:181 | `random.sample(dirs, 4)` returns a permutation of the four directions |
| Grid.UnitStepsShuffled | maze_generator.py:42-43 | any reordering of the four directions holds exactly the unit moves |
| Grid.Set | maze_generator.py:47 | writing one cell changes that cell and no other, and keeps the grid's shape |
| Grid.AnyPellets | game.py:127 | the scan answers true exactly when some cell holds a pellet (2) or a power pellet (3) |
| Carving.Candidates | maze_generator.py:11-16 | every candidate is a room two cells away in the grid, and every such room is a candidate |
| Carving.MidBetween | maze_generator.py:24 | the cell opened between two neighbouring rooms is an interior non-room cell adjacent to both |
| Carving.WallsShrink | maze_generator.py:31-49 | opening walls never adds a wall, and opening one strictly shrinks the set of walls; this measure makes carving and the dead-end loop terminate |
| Carving.OpenKeepsReach | maze_generator.py:44-48 | opening a wall next to an open cell keeps every open cell reachable from the start |
| Carving.RoomsOpen | maze_generator.py:20-29 | once the search has spread from every open room, every room of the grid is open |
| Carving.Carve | maze_generator.py:20-25 | `dfs` opens only interior walls and opens its own room; every room it opens spreads to its open neighbours, and every open cell stays reachable from the start |
| Carving.CarveTowards | maze_generator.py:22-25 | one iteration of `dfs`'s loop opens the room it looks at, keeps the rest of the invariant and never adds a wall |
| MazeGenerator.Dimensions | maze_generator.py:7-8 | each even dimension loses one, so both dimensions are odd |
| MazeGenerator.AllWalls | maze_generator.py:9 | the starting grid has the chosen shape and every cell is a wall |
| MazeGenerator.OpenDeadEnd | maze_generator.py:44-48 | opening a dead end's interior wall keeps the grid 0/1, keeps every open cell reachable and removes one wall |
| MazeGenerator.FirstInteriorWall | maze_generator.py:44-49 | the first shuffled direction whose neighbour is an interior wall, or none |
| MazeGenerator.FixCell | maze_generator.py:36-49 | one cell's turn of the pass opens one interior wall next to a dead end, or changes nothing and leaves the cell settled |
| MazeGenerator.ScanRow | maze_generator.py:35-49 | one row of the pass: either a wall was opened, or every cell of the row is settled |
| MazeGenerator.ScanPass | maze_generator.py:34-49 | one pass: either a wall was opened, or every interior cell is settled |
| MazeGenerator.RemoveDeadEnds | maze_generator.py:31-49 | the `while alterado` loop opens only interior walls and keeps the open cells connected; on exit every cell is settled, so in a grid of at least 5×5 every open interior cell has at least two open neighbours |
| MazeGenerator.NoDeadEnds | maze_generator.py:34-49 | in a grid of at least 5×5 where every cell is settled, an open interior cell has at least two open neighbours |
| MazeGenerator.OpenNeighbours | maze_generator.py:37-40 | the count of open neighbours of an interior cell is at most four |
| MazeGenerator.PelletRow | maze_generator.py:52-57 | one row: every open cell becomes a pellet or a power pellet, and every other cell keeps its value |
| MazeGenerator.PlacePellets | maze_generator.py:51-57 | every open cell becomes a pellet or a power pellet; walls stay walls |
| MazeGenerator.PelletsKeepWalks | maze_generator.py:51-57 | placing pellets changes no cell's walkability, leaves no empty cell, and keeps every cell reachable |
| MazeGenerator.HouseRow | maze_generator.py:61-63 | one row of the house is emptied over five cells |
| MazeGenerator.StampHouse | maze_generator.py:59-64 | the 5×5 block around the centre is empty except its centre, which is 4; every other cell is unchanged |
| MazeGenerator.HouseWalk | maze_generator.py:59-63 | inside the house any cell reaches any other in as many steps as their Manhattan distance |
| MazeGenerator.HouseConnected | maze_generator.py:59-64 | stamping the house into a connected maze whose house holds an open room leaves the maze connected |
| MazeGenerator.AllRoomsOpen | maze_generator.py:20-29 | after carving, every cell with both coordinates odd is open |
| MazeGenerator.BorderWalls | maze_generator.py:59-63 | for dimensions of at least 7 the house does not reach the border, so the whole border is walls |
| MazeGenerator.GeneratedCells | maze_generator.py:51-64 | after the pellets and the house: the house is empty with centre 4, every other cell holds 1, 2 or 3, the border outside the house is walls, and every room is walkable |
| MazeGenerator.GenerateMaze | maze_generator.py:5-66 | for both dimensions at least 3, `gerar_labirinto` gives a grid of the odd dimensions with the house stamped, only 1, 2 or 3 outside it, walls on the border outside the house (the whole border once both dimensions are at least 7), every room walkable, and all walkable cells connected |
| MazeGenerator.TryGenerateMaze | maze_generator.py:5-66 | `gerar_labirinto` raises exactly when a dimension is below 3 (the start cell is drawn from an empty range at lines 27-28); otherwise it gives a maze with every property `GenerateMaze` states |
| Pathfinding.LevelIsDist | pathfinding.py:14-25 | the breadth-first level at which a cell is discovered is its shortest distance from the start |
| Pathfinding.TargetFound | pathfinding.py:18-20 | a target discovered from a cell at level `d` is at shortest distance `d + 1` |
| Pathfinding.ExhaustedUnreachable | pathfinding.py:14-26 | when the queue empties without reaching the target, the target is unreachable |
| Pathfinding.WallUnreachable | pathfinding.py:18 | a wall or an out-of-grid target is never reachable |
| Pathfinding.OpenIsWalkable | pathfinding.py:18 | the bounds-and-not-a-wall test is exactly walkability |
| Pathfinding.Expand | pathfinding.py:16-25 | expanding one cell either finds the target, with a first step on a shortest path, or keeps the search invariant and never forgets a discovered cell |
| Pathfinding.FirstStep | pathfinding.py:21-24 | walking the predecessor links back from the target stops at a neighbour of the start one step closer to the target |
| Pathfinding.Offset | pathfinding.py:24 | the returned offset is a unit move leading from the start to that neighbour |
| Pathfinding.FirstMove | pathfinding.py:24 | the first step is a unit move onto a walkable cell, and the distance from it to the target is one less than from the start |
| Pathfinding.BfsNextStep | pathfinding.py:4-26 | `(0,0)` exactly when start equals target or the target is unreachable; otherwise a unit move onto a walkable neighbour one step closer along a shortest path |
| Pathfinding.NoUpMove | pathfinding.py:38 | the expansion list never moves upward |
| Pathfinding.RegionCovered | pathfinding.py:36-43 | a search closed under the expansion list covers every cell on or below the start's row |
| Pathfinding.SearchExhausted | pathfinding.py:36-44 | when the queue empties, no walkable cell lies on or below the start's row |
| Pathfinding.SearchAround | pathfinding.py:37-43 | expanding one cell either returns a walkable cell not above the start, or keeps the search invariant |
| Pathfinding.NearestWalkable | pathfinding.py:28-44 | a walkable point is returned unchanged; otherwise the result is the grid's centre or a walkable cell not above the point; for a point in the grid the centre is returned only when no walkable cell lies at or below its row |
| Entities.PassableWalkable | entities.py:38 | the entity's bounds-and-wall test agrees with walkability |
| Entities.PointsUpdate | entities.py:44-51 | writing a cell changes the maze's pellet points by exactly that cell's old and new values |
| Entities.PointsZero | game.py:127 | the maze is worth zero points exactly when no pellet or power pellet remains |
| Entities.SuperCountdown | entities.py:65-66 | after `k` non-dying updates the super timer is `t - k`, never below 0 |
| Entities.DeathCountdown | entities.py:85-92 | from timer `t`, the player is still dying after fewer than `t` calls and has stopped on call `t` |
| Entities.StillDead | entities.py:86 | once the player is no longer dying, the death update changes nothing |
| Entities.Player.constructor | entities.py:26-32 | a new player stands still with score 0 and no timers running |
| Entities.Player.TrySetDirection | entities.py:36-39 | the direction changes to the requested one exactly when the cell ahead is in bounds and not a wall |
| Entities.Player.Move | entities.py:41-53 | a wall or the edge changes nothing; otherwise the player steps, a pellet gives 10 and a power pellet 50 and is cleared, and a power pellet starts super mode; score plus the maze's points is conserved |
| Entities.Player.ActivateSuperMode | entities.py:55-57 | the super timer is set to `SUPER_MODE_DURATION` and the start signal is returned |
| Entities.Player.Update | entities.py:59-68 | a dying player advances the death countdown only; otherwise a positive super timer drops by 1 |
| Entities.Player.StartDying | entities.py:75-77 | the player is dying with the timer at 60 |
| Entities.Player.UpdateDeathAnimation | entities.py:85-92 | the timer drops by one and dying stops on the call where it reaches 0 or less; a player not dying is untouched |
| Entities.Farthest | entities.py:198 | `max` by Manhattan distance: an element at the largest distance, the first of them on ties |
| Entities.TargetTile | entities.py:194-212 | an eaten ghost aims at its spawn; a vulnerable one at the corner farthest from the player; Clyde aims at a fixed cell exactly when within distance 8 |
| Entities.ChaseTargets | entities.py:199-211 | once resolved, a chasing ghost's target is: for Blinky the player's cell when walkable; for Pinky the cell four ahead of the player along its heading when walkable; for Inky the reflection of Blinky through the player (the player's cell without a Blinky) when walkable; otherwise a walkable cell on or below that point's row, or the grid's centre; for Clyde the player's cell in the same sense from afar and `(1, ROWS-2)` within 8 steps |
| Entities.Resolve | entities.py:199-212 | an exact target is kept; a point is kept when walkable, else replaced by a walkable cell not above it or by the grid's centre, as the nearest-walkable search gives |
| Entities.Ghost.constructor | entities.py:158-164 | a new ghost is in the house at its spawn cell with timer 0 |
| Entities.Ghost.Update | entities.py:166-192 | a housed ghost does nothing; a vulnerable ghost's timer drops and it turns to chase at 0; an eaten ghost back at its spawn chases; the ghost moves at most one unit step onto a walkable cell free of other non-eaten ghosts, along a shortest path when that is free |
| Entities.Ghost.ChooseStep | entities.py:174-187 | a free unit move, or no move only when no direction is free; when no neighbour is held by another ghost, the move lies on a shortest path to the target |
| Entities.Ghost.Fallback | entities.py:179-185 | a free unit move, or no move only when no direction is free; it draws one `random.sample` of the four directions |
| Entities.Ghost.FreeMoves | entities.py:180-184 | the free moves in shuffled order: exactly the directions whose cell is walkable and not held by another non-eaten ghost |
| Game.HouseOfFirst | game.py:41 | the house cell is the first cell holding 4 in row-major order, or the grid's centre when none does |
| Game.FindHouse | game.py:41 | the scan returns that cell |
| Game.HouseOf | game.py:41 | defines the house lookup: the first cell holding 4 in row-major order, or `(COLS // 2, ROWS // 2)` when there is none |
| Game.GeneratedPlayable | game.py:31 | a maze that `gerar_labirinto` promises for the game's dimensions is playable, with its house at the centre |
| Game.EatKeepsPlayable | game.py:82 | eating a pellet keeps the maze playable and changes no cell's walkability |
| Game.Arrow | game.py:62-65 | the four arrow keys give the four unit moves; other keys give none |
| Game.NewMaze | game.py:31-41 | a new game's maze is playable, its house is at the centre with open cells around it, and the player's start is walkable, not above `(COLS//2, ROWS-5)`, and that cell itself when walkable |
| Game.PlayerStart | game.py:39 | the player's start is walkable and not above `(COLS//2, ROWS-5)`, and is that cell when it is walkable |
| Game.HouseHome | game.py:41 | the ghosts' home is the house cell, and the cells around it are open |
| Game.NewGhosts | game.py:42-47 | four distinct ghosts, Blinky, Pinky, Inky and Clyde, in the house at the centre, left, right and above |
| Game.Game.constructor | game.py:11-36 | a new game is valid and running, has 3 lives and frame 0, is not started, over or paused, and places the player and the housed ghosts |
| Game.Game.Quit | game.py:58-59 | the window's quit stops the game |
| Game.Game.KeyDown | game.py:56-65 | Escape stops the game; outside game over and the death pause a key press starts play, and an arrow turns the player when the cell that way is walkable |
| Game.Game.Turn | game.py:62-65 | the player turns only towards a walkable cell |
| Game.Game.HandlePlayerDeath | game.py:104-107 | a life is lost at once, the player starts dying and the game pauses |
| Game.Game.CheckWin | game.py:126-128 | with no pellet left the game is over and won and the score line is appended to the scores file; otherwise nothing changes |
| Game.Game.FindBlinky | game.py:95 | the first Blinky in the list, or none |
| Game.Game.ReleaseGhosts | game.py:90-91 | ghost `i` leaves the house for chase once `frame > i*90+60`; nothing else changes |
| Game.Game.Frighten | game.py:85-86 | every ghost not eaten, housed ones too, becomes vulnerable with the full timer; eaten ghosts are untouched |
| Game.Game.Collide | game.py:100-102 | one ghost's collision: a vulnerable ghost on the player's cell is eaten for 200; another non-eaten one there kills the player |
| Game.Game.CheckCollisions | game.py:98-102 | the loop stops at the first lethal ghost on the player's cell; every vulnerable ghost there before it is eaten for 200 points each; a lethal hit costs one life, starts dying and pauses |
| Game.Game.MoveGhosts | game.py:95-96 | every ghost stays on a walkable cell and moves at most one unit step; a housed ghost stays housed and in place, no ghost enters the house, and no ghost becomes eaten by moving |
| Game.Game.UpdateOne | game.py:96 | one ghost's update keeps it on walkable cells with a legal step; a housed ghost stays put; otherwise the timer runs, the target is the one its state and kind choose, and with a path to it and free neighbours the step shortens the distance by one |
| Game.Game.HomeGhosts | game.py:119-124 | the ghosts go back to the house offsets in state house |
| Game.Game.ResetPositions | game.py:114-124 | the player is back at the start, still and out of super mode; the ghosts are housed at home; play waits for a key; maze, score and frame are kept |
| Game.Game.HandleDeathEnd | game.py:109-112 | with lives left the positions reset; otherwise the game is over and lost and the score is saved |
| Game.Game.MovePlayer | game.py:80-82 | the player's move on the game's maze: the step, the pellet eaten and the power signal, with score plus remaining points conserved |
| Game.Game.PlayerStep | game.py:79-82 | the player moves on every `PLAYER_MOVE_DELAY`-th tick and the counter wraps to 0 |
| Game.Game.PowerUp | game.py:83-86 | a power pellet starts the super intro of `int(FPS*1.5)` ticks and frightens every ghost not eaten |
| Game.Game.UpdatePlayer | game.py:78-87 | the player's tick: the cadence, the move, the power-up and then the player's own timer update |
| Game.Game.GhostStep | game.py:92-96 | the ghosts move on every `GHOST_MOVE_DELAY`-th tick, each at most one step, and the counter wraps to 0 |
| Game.Game.UpdateGhosts | game.py:89-96 | the release check, then the ghosts' cadence and step |
| Game.Game.Advance | game.py:75 | the player's and the ghosts' updates keep the game valid and advance both counters; the score never drops |
| Game.Game.Collisions | game.py:97-102 | the collision loop runs to `stop`, the first lethal ghost on the player's cell; the vulnerable ghosts there before it are eaten for 200 points each; a life is lost and the death pause starts exactly when such a ghost exists |
| Game.Game.EndFrame | game.py:75-76 | the win check, then the frame advances by one; the game is over and won exactly when no pellet remains |
| Game.Game.Play | game.py:75 | an active tick's updates and collisions |
| Game.Game.Step | game.py:74-76 | an active tick: at most one life lost, the frame advances, and the game ends exactly when the pellets run out |
| Game.Game.DeathPause | game.py:70-73 | during the death pause only the death countdown runs; when it ends the game resets with lives left, or is over and lost |
| Game.Game.Tick | game.py:67-76 | `_update`: nothing once the game is over; during the super intro only the intro counter drops and every other field is kept; during the death pause only the death countdown runs, ending in a reset while lives remain or the lost game, with maze, score, frame and counters kept; nothing before the start; lives never grow and the score never drops |
| Scores.IntToString | utils.py:29 | `str(score)`: digits with an optional minus sign, never a `;` or a newline |
| Scores.ParseInt | utils.py:17 | `int(s)` succeeds only on text that is not blank once stripped |
| Scores.IntRoundTrip | utils.py:17 | `int(str(n)) == n` for every integer |
| Scores.IndexOf | utils.py:15 | the split is at the first `;` |
| Scores.ParseLine | utils.py:14-19 | a parsed name never contains `;` |
| Scores.EntriesFromLines | utils.py:11-20 | every entry comes from a line in order, at most one per line, and no name contains `;` |
| Scores.Universal | utils.py:10-11 | a file read in text mode has no carriage return left, and is never longer than the file |
| Scores.UniversalPlain | utils.py:10-11 | a text without carriage returns is read back unchanged |
| Scores.UniversalAppend | utils.py:10-11 | text up to a point that is not a carriage return reads the same whatever follows it |
| Scores.UniversalComplete | utils.py:10-11 | a file ending in a line break of either kind reads as text ending in a newline |
| Scores.ReadText | utils.py:7-11 | a missing file has no text, an existing one its text as read |
| Scores.ReadAfterSave | utils.py:10-29 | reading a complete file after a plain line is appended gives the earlier text as read, then that line |
| Scores.Entries | utils.py:5-20 | defines `carregar_placares`: nothing for a missing file, else the entries of the lines, split at `\n`, `\r\n` or `\r`, that parse |
| Scores.Line | utils.py:29 | defines the line `salvar_placar` writes: the name, `;`, the score in decimal, then a newline |
| Scores.LineRoundTrip | utils.py:15-29 | parsing the line `salvar_placar` writes gives back the name and the score, for a name without `;`, newline or carriage return that does not start with whitespace |
| Scores.Append | utils.py:28-29 | appending creates the file when it is missing |
| Scores.SaveThenLoad | utils.py:5-29 | for a missing file or one ending in a newline, loading after a save gives the earlier entries followed by the new one, whatever line endings the earlier text used, and the file still ends in a newline |
| Scores.LoadScores | utils.py:5-20 | `carregar_placares` gives the surviving entries in file order, and nothing for a missing file |
| PyText.Strip | utils.py:11 | `strip()` leaves no whitespace at either end |
| PyText.StripParts | utils.py:11 | `strip()` is the middle slice once whitespace is removed from both ends |
| PyText.LowerStr | Pro02/comparador_de_bulas.py:91 | `lower()` lowercases each character and keeps the length |
| PyText.RunsKept | Pro02/comparador_de_bulas.py:91 | `split()` and `\w+` pieces are non-empty and made only of the kept characters |
| PyText.RunsChars | Pro02/comparador_de_bulas.py:91 | every character of a piece comes from the text |
| PyText.RunsWhole | Pro02/comparador_de_bulas.py:139 | a word made only of word characters is a single `\w+` match |
| PyText.RunsLower | Pro02/comparador_de_bulas.py:96-97 | lowercasing then splitting is splitting then lowercasing each piece |
| PyText.WordsStrip | Pro02/comparador_de_bulas.py:96-97 | `strip()` before `split()` changes nothing |
| PyText.Lines | Pro02/comparador_de_bulas.py:100 | defines `splitlines()`: the pieces between line boundaries, with `\r\n` one boundary and no empty piece after a final boundary |
| PyText.Words | Pro02/comparador_de_bulas.py:91 | defines `split()`: the maximal runs of non-whitespace characters |
| PyText.WordRuns | Pro02/comparador_de_bulas.py:139 | defines the matches of `\w+`: the maximal runs of word characters |
| PyText.Lower | Pro02/comparador_de_bulas.py:91 | defines `lower()` on one character: the ASCII and Latin-1 capitals lowercased, `×` and everything else kept |
| LeafletText.DropPunctKeeps | Pro02/comparador_de_bulas.py:90 | removing punctuation keeps exactly the word and whitespace characters |
| LeafletText.DropPunct | Pro02/comparador_de_bulas.py:90 | removing punctuation never lengthens the text |
| LeafletText.TextTokensFrom | Pro02/comparador_de_bulas.py:91-92 | each output token is a lowercased non-stopword word with one trailing `s` removed, and every such word gives a token |
| LeafletText.NormalizedChars | Pro02/comparador_de_bulas.py:89-93 | `normalize_text` yields only word characters and spaces |
| LeafletText.NormalizedTitleChars | Pro02/comparador_de_bulas.py:95-97 | `normalize_title` yields only word characters and spaces |
| LeafletText.TitleIsTextWithoutStopwords | Pro02/comparador_de_bulas.py:95-97 | `normalize_title` is `normalize_text` without the stopword filter: they agree when no word is a stopword |
| LeafletText.NormalizeText | Pro02/comparador_de_bulas.py:89-93 | defines `normalize_text`: punctuation removed, split at whitespace, stopwords dropped, each word lowercased with one trailing `s` cut, joined by single spaces |
| LeafletText.NormalizeTitle | Pro02/comparador_de_bulas.py:95-97 | defines `normalize_title`: the same steps after `strip` and `lower`, with no stopword filter |
| LeafletSections.NormTitles | Pro02/comparador_de_bulas.py:103 | each title is paired with its normal form, in order |
| LeafletSections.TitlePattern | Pro02/comparador_de_bulas.py:109 | defines `title_pattern.match`: digits, an optional `.`, `,` or `)`, whitespace, then heading characters to the end or to a final newline |
| LeafletSections.Best | Pro02/comparador_de_bulas.py:113-120 | the best title is one of the titles |
| LeafletSections.BestIsFirstHighest | Pro02/comparador_de_bulas.py:113-121 | the best match is the first compatible title with the highest positive count of shared words; no compatible title scores more; there is no match exactly when the best count is 0 |
| LeafletSections.BestMatch | Pro02/comparador_de_bulas.py:113-120 | the scoring loop returns that best match |
| LeafletSections.FirstIn | Pro02/comparador_de_bulas.py:123-126 | the fallback is the first title whose normal form occurs in the line's, or none when no title occurs |
| LeafletSections.FirstMatch | Pro02/comparador_de_bulas.py:123-126 | the fallback loop returns that title |
| LeafletSections.TitleOf | Pro02/comparador_de_bulas.py:107-126 | a recognised title is one of the section titles |
| LeafletSections.FindTitle | Pro02/comparador_de_bulas.py:107-126 | the numbered-title test then the fallback give that title |
| LeafletSections.NoBodies | Pro02/comparador_de_bulas.py:101 | every section title starts with an empty body |
| LeafletSections.Scan | Pro02/comparador_de_bulas.py:104-130 | the bodies are keyed by exactly the section titles, and the current section is always one of them |
| LeafletSections.BodyLines | Pro02/comparador_de_bulas.py:104-130 | no body holds a blank line or a recognised title line |
| LeafletSections.NothingBeforeFirstTitle | Pro02/comparador_de_bulas.py:129 | lines before the first recognised title are dropped |
| LeafletSections.JoinedContentStripped | Pro02/comparador_de_bulas.py:132 | a body joined by newlines is already stripped |
| LeafletSections.Texts | Pro02/comparador_de_bulas.py:131-132 | joining keeps every section key |
| LeafletSections.ScanLines | Pro02/comparador_de_bulas.py:104-130 | the loop builds exactly those bodies |
| LeafletSections.JoinBodies | Pro02/comparador_de_bulas.py:131-132 | the final loop joins every body |
| LeafletSections.SectionTextsAreJoinedBodies | Pro02/comparador_de_bulas.py:131-132 | each section text is its body's lines joined by newlines |
| LeafletSections.SplitSections | Pro02/comparador_de_bulas.py:99-133 | the split of a text for a given list of titles |
| LeafletSections.SplitLeaflet | Pro02/comparador_de_bulas.py:99-133 | `split_full_text_into_sections` gives exactly the ten section titles as keys, each with its body lines joined by newlines |
| LeafletCompare.TokensFromLines | Pro02/comparador_de_bulas.py:136-142 | the loop gives every `\w+` word of every line with its normal form and page |
| LeafletCompare.WordTokens | Pro02/comparador_de_bulas.py:139-141 | one token per word, carrying its text, its normal form and its page |
| LeafletCompare.TokensOfLines | Pro02/comparador_de_bulas.py:136-142 | every token is a word of a line on its page, with its normal form |
| LeafletCompare.NormOfWord | Pro02/comparador_de_bulas.py:141 | a single word normalises to its lowercased form without a trailing `s`, or to nothing for a stopword |
| LeafletCompare.TokenNorms | Pro02/comparador_de_bulas.py:141 | that holds for every token |
| LeafletCompare.UnescapeEscape | Pro02/comparador_de_bulas.py:148 | `html.escape` loses nothing: unescaping gives the text back |
| LeafletCompare.EscapeChar | Pro02/comparador_de_bulas.py:148 | a special character becomes an entity starting with `&`; any other character stays itself |
| LeafletCompare.EscapeIdentity | Pro02/comparador_de_bulas.py:148 | escaping changes a text exactly when it holds `&`, `<`, `>`, `"` or `'`, and never shortens it |
| LeafletCompare.EscapeWord | Pro02/comparador_de_bulas.py:148 | a `\w+` word is never changed by escaping |
| LeafletCompare.Parts | Pro02/comparador_de_bulas.py:147-156 | one HTML part per token |
| LeafletCompare.UnmatchedExactly | Pro02/comparador_de_bulas.py:147-156 | the listed words are exactly the tokens whose normal form is not common |
| LeafletCompare.MarkTokens | Pro02/comparador_de_bulas.py:147-156 | the loop gives those parts and those words |
| LeafletCompare.PartsShowTokens | Pro02/comparador_de_bulas.py:147-156 | a common token appears as its text; any other is wrapped in a highlighted span |
| LeafletCompare.CompareContent | Pro02/comparador_de_bulas.py:135-157 | `compare_content` computed by its loops |
| LeafletCompare.ChangesExactly | Pro02/comparador_de_bulas.py:143-157 | a base token is removed exactly when its normal form is missing from the other side, and symmetrically for added |
| LeafletCompare.SwapSides | Pro02/comparador_de_bulas.py:143-157 | swapping the two sides swaps the removed and added words |
| LeafletCompare.SelfCompare | Pro02/comparador_de_bulas.py:144-156 | comparing lines with themselves removes and adds nothing and marks both sides alike |
| LeafletCompare.Compare | Pro02/comparador_de_bulas.py:135-157 | defines `compare_content`: the tokens of each side; the common normal forms; each side's HTML with the tokens outside them highlighted; the removed and added tokens |
| LeafletCompare.Escape | Pro02/comparador_de_bulas.py:148 | defines `html.escape` with `quote=True`: each of `&`, `<`, `>`, `"` and `'` becomes its entity |
| LeafletReport.NumberLinesExactly | Pro02/comparador_de_bulas.py:164-165 | the numbered lines are exactly the non-blank lines, on page 1, with their indices |
| LeafletReport.InsertAdds | Pro02/comparador_de_bulas.py:171 | adding a page keeps the pages increasing and adds exactly that page |
| LeafletReport.AddPageExactly | Pro02/comparador_de_bulas.py:170-171 | a page's lines add that page to exactly their words' normal forms |
| LeafletReport.PageIndexExactly | Pro02/comparador_de_bulas.py:169-171 | the page index lists, for each normal form, exactly the pages it occurs on, in increasing order |
| LeafletReport.IndexPages | Pro02/comparador_de_bulas.py:169-171 | the loop builds that index |
| LeafletReport.PagesOfDocument | Pro02/comparador_de_bulas.py:176 | a word's pages are sorted and non-empty: the pages it occurs on, or `(1,)` when it occurs on none |
| LeafletReport.Entries | Pro02/comparador_de_bulas.py:175-178 | one summary entry per changed word, with its section, change and pages |
| LeafletReport.AppendEntries | Pro02/comparador_de_bulas.py:175-178 | the loop appends those entries |
| LeafletReport.ReportSection | Pro02/comparador_de_bulas.py:162-178 | one section's HTML and summary entries |
| LeafletReport.ReportSections | Pro02/comparador_de_bulas.py:162-178 | the loop over the sections |
| LeafletReport.BuildReport | Pro02/comparador_de_bulas.py:159-179 | the report of two texts for a given list of titles |
| LeafletReport.BuildSectionHtmls | Pro02/comparador_de_bulas.py:159-179 | `build_section_htmls` over the ten section titles |
| LeafletReport.SummaryFaithful | Pro02/comparador_de_bulas.py:175-178 | every summary entry names a section title and a change, with the pages that side's index gives |
| LeafletReport.SummaryPages | Pro02/comparador_de_bulas.py:175-178 | every summary entry's pages are sorted and non-empty, and its change is "Removido" or "Adicionado" |
| LeafletReport.SameLeaflet | Pro02/comparador_de_bulas.py:159-179 | comparing a leaflet with itself gives an empty summary and identical HTML on both sides |
| LeafletReport.NumberLines | Pro02/comparador_de_bulas.py:164-165 | defines the numbered lines: `(1, i, line)` for each non-blank line with its index |
| LeafletReport.PageIndex | Pro02/comparador_de_bulas.py:169-174 | defines the page index: for each normal form of a `\w+` word of a page's line, the pages it occurs on |
| LeafletReport.Pages | Pro02/comparador_de_bulas.py:176-178 | defines a word's pages: its entry in the page index, or `[1]` when it has none |
| LeafletReport.Reports | Pro02/comparador_de_bulas.py:162-179 | defines the section loop: each section's two HTML fragments appended in order, and its summary entries after the earlier ones |
| Chunking.ChunkText | Pro01/ExigenciaApp.py:90-93 | a zero `max_lines` raises, as `range` does; a negative one gives no chunk |
| Chunking.ChunkLines | Pro01/ExigenciaApp.py:90-93 | the generator, drained into a list, gives the chunks |
| Chunking.Joined | Pro01/ExigenciaApp.py:93 | one chunk per slice, each the slice's lines joined by newlines |
| Chunking.SliceSizes | Pro01/ExigenciaApp.py:92-93 | every chunk has between 1 and `max_lines` lines, all but the last have exactly `max_lines`, and there are `ceil(n/max_lines)` of them |
| Chunking.SlicesCover | Pro01/ExigenciaApp.py:91-93 | the chunks' lines, concatenated in order, are the text's lines |
| Chunking.EmptyTextNoChunks | Pro01/ExigenciaApp.py:92 | an empty text gives no chunk |
| Chunking.Slices | Pro01/ExigenciaApp.py:92-93 | defines the slices `lines[i:i+m]` for `i` in `range(0, len(lines), m)` |
| PyText.SplitJoin | utils.py:10-11 | reading a text line by line splits it at each newline: the lines of `u + "\n" + v` are those of `u` followed by those of `v` |
| Chunking.ChunksSplitBack | Pro01/ExigenciaApp.py:93 | splitting a chunk at its newlines gives back its lines |
| Chunking.PromptCarriesChunk | Pro01/ExigenciaApp.py:51-63 | the prompt is one of the three instructions, the marker, then the chunk unchanged, so different chunks give different prompts |
| Chunking.Instruction | Pro01/ExigenciaApp.py:52-61 | defines the instruction: "Curto" asks for five sentences, "Médio" for five to eight paragraphs, any other level for the detailed analysis |
| Chunking.Prompt | Pro01/ExigenciaApp.py:63 | defines the chunk prompt: the instruction, the `Trecho:` marker, then the chunk |
| Chunking.FinalPrompt | Pro01/ExigenciaApp.py:77-78 | defines the final prompt: the header, then the partial summaries joined by blank lines |
| Chunking.FinalPromptKeepsSummaries | Pro01/ExigenciaApp.py:76-78 | the final prompt starts with its header and contains every partial summary whole |
| ClassicRules.StartCell | Pro03/Pacman.py:227-230 | each ghost starts on the board |
| ClassicRules.Wrap | Pro03/Pacman.py:79-82 | a coordinate one step off the board wraps to the other side |
| ClassicRules.WrapStep | Pro03/Pacman.py:77-82 | a wrapped step always lands on the board |
| ClassicRules.WrapStepBack | Pro03/Pacman.py:77-82 | a wrapped step followed by the reverse step comes back |
| ClassicRules.PickIndex | Pro03/Pacman.py:147 | `min`/`max` by distance: no candidate is strictly better, and the first of the best is taken |
| ClassicRules.ChosenUnique | Pro03/Pacman.py:147 | the steering choice is determined |
| ClassicRules.Steered | Pro03/Pacman.py:146-150 | defines the steering: the chosen direction among the allowed ones, or back the way it came when none is allowed |
| ClassicRules.Candidates | Pro03/Pacman.py:138-144 | defines the candidate list: exactly the allowed directions, each once, in the order up, right, down, left |
| ClassicRules.PickIsChosen | Pro03/Pacman.py:146-148 | the picked move is the steering choice |
| ClassicRules.NoCandidatesStuck | Pro03/Pacman.py:149-150 | with no candidate the ghost is stuck and reverses |
| ClassicRules.Target | Pro03/Pacman.py:129-135 | every target of a player on the board is on the board |
| ClassicRules.Retune | Pro03/Pacman.py:120-124 | the mode is either kept or replaced by the global mode; a vulnerable ghost stays vulnerable exactly while its decremented timer is positive; eaten and exiting ghosts keep their mode |
| ClassicRules.Arrive | Pro03/Pacman.py:161-162 | eaten becomes exiting inside the house, exiting becomes scatter at the door; nothing else changes |
| ClassicRules.Frighten | Pro03/Pacman.py:113-117 | a ghost that is not eaten becomes vulnerable in place, keeping a unit heading; an eaten ghost stays eaten |
| ClassicRules.FrightLasts | Pro03/Pacman.py:120-122 | a vulnerable ghost stays vulnerable for its timer's length |
| ClassicRules.FrightEnds | Pro03/Pacman.py:120-122 | after 500 updates it takes the global mode |
| ClassicRules.Clock | Pro03/Pacman.py:250-252 | the global mode switches exactly when its phase's time is over |
| ClassicRules.WithinPhase | Pro03/Pacman.py:250-252 | within a phase the clock only counts |
| ClassicRules.ClockCycle | Pro03/Pacman.py:235-252 | scatter lasts 421 ticks and chase 1201, then the cycle repeats |
| Classic.Player.constructor | Pro03/Pacman.py:70-74 | a new player stands still with score 0 and 3 lives |
| Classic.Player.Press | Pro03/Pacman.py:243-247 | an arrow key sets the heading to its unit move; other keys change nothing |
| Classic.Ghost.constructor | Pro03/Pacman.py:105-111 | a new ghost starts at its start cell heading up, in scatter |
| Classic.Ghost.GoHome | Pro03/Pacman.py:214-215 | the ghost is back at its start, Vermelho in scatter and the others exiting |
| Classic.Ghost.BecomeVulnerable | Pro03/Pacman.py:113-117 | `become_vulnerable` as a state change |
| Classic.Ghost.Steer | Pro03/Pacman.py:137-150 | the heading becomes the steering choice, or the reverse when stuck |
| Classic.Ghost.MoveTowards | Pro03/Pacman.py:137-162 | steer, take one wrapped step, then the house transitions |
| Classic.Ghost.Arrival | Pro03/Pacman.py:161-162 | the house transitions on arrival |
| Classic.Ghost.Retune | Pro03/Pacman.py:120-124 | the mode update and the vulnerable timer's countdown |
| Classic.Ghost.Update | Pro03/Pacman.py:119-127 | one ghost update: retune, steer towards the target, take one wrapped step |
| Classic.PossibleMoves | Pro03/Pacman.py:138-144 | the candidates are exactly the non-reverse directions onto passable cells, in up, right, down, left order |
| Classic.HeadingAfter | Pro03/Pacman.py:241-247 | the heading after the key presses is a unit move, or unchanged when there was no arrow key |
| Classic.NewGhosts | Pro03/Pacman.py:227-231 | three distinct ghosts, Vermelho, Rosa and Ciano, at their start cells in scatter |
| Classic.Game.constructor | Pro03/Pacman.py:226-237 | the game starts with the layout, the player at home and the ghosts at their starts, in scatter with the counters at 0 |
| Classic.Game.FrightenAll | Pro03/Pacman.py:92 | every ghost is frightened |
| Classic.Game.MovePlayer | Pro03/Pacman.py:76-92 | the player takes the wrapped step when the cell ahead is open; a pellet gives 10 and a power pellet 50, both are cleared, and a power pellet frightens every ghost, which are otherwise untouched; score plus remaining points is conserved |
| Classic.Game.Eat | Pro03/Pacman.py:84-92 | what the cell entered gives |
| Classic.Game.Consume | Pro03/Pacman.py:86-91 | the cell is cleared and its points are scored |
| Classic.Game.Restart | Pro03/Pacman.py:209-216 | the layout is restored, pellets included; the player is at (13,22) standing still; the ghosts are at their starts, Vermelho in scatter and the others exiting |
| Classic.Game.Sweep | Pro03/Pacman.py:196-201 | the loop stops at the first lethal ghost on the player's cell; vulnerable ghosts before it are eaten for 200 each |
| Classic.Game.LoseLife | Pro03/Pacman.py:202-206 | one life is lost; at 0 the game is over and nothing else changes, otherwise the game restarts |
| Classic.Game.CheckCollisions | Pro03/Pacman.py:194-207 | a life is lost exactly when a lethal ghost is on the player's cell, at most one per check; otherwise the vulnerable ghosts there are eaten |
| Classic.Game.UpdateGhosts | Pro03/Pacman.py:259-260 | every ghost takes one wrapped step |
| Classic.Game.UpdateGhost | Pro03/Pacman.py:260 | one ghost takes one wrapped step: its timer runs, it retunes, steers towards its mode's target and arrives |
| Classic.Game.TickClock | Pro03/Pacman.py:250-252 | the global clock advances |
| Classic.Game.MoveRound | Pro03/Pacman.py:256-261 | a movement round loses at most two lives and never lowers the score |
| Classic.Game.PlayerPhase | Pro03/Pacman.py:257-258 | the player's move and the first collision check: the score gains at least what the cell ahead holds; with no life lost the player is on the cell its move reached and that cell's pellet is gone; a lost life with lives left restarts everyone, the last one ends the game |
| Classic.Game.GhostPhase | Pro03/Pacman.py:259-261 | the ghosts' moves and the second collision check: with no life lost the player and the maze are untouched and every ghost took one wrapped step; a lost life with lives left restarts everyone, the last one ends the game |
| Classic.Game.CountMove | Pro03/Pacman.py:254-261 | the move counter wraps every 6 ticks; lives never grow and the score never drops |
| Classic.Game.Advance | Pro03/Pacman.py:250-263 | the clock and the counter advance, and the game is won exactly when no pellet remains |
| Classic.Game.Tick | Pro03/Pacman.py:249-263 | nothing changes once the game is over or won; otherwise the clock and counter advance and the win is checked |
| Classic.Game.HandleEvents | Pro03/Pacman.py:241-247 | the window's quit stops the loop, and the arrow keys set the heading |
| Classic.Game.Frame | Pro03/Pacman.py:240-276 | one frame of the main loop: the loop stops on quit, game over or win, and the score never drops |

## Left out

- Drawing, sounds, fonts, the clock and FPS pacing, and pygame event polling are not modelled. Key presses become a parameter.
- Floating-point animation state is not modelled: `anim_phase`, blood particles, the blood trail and the weapon geometry.
- The Qt windows are not modelled, nor PDF, DOCX and metadata reading, the `ollama` subprocess, the SQLite score store and the web apps. They are user interface or foreign code.
- File opening and appending are left out. The scores file is an `Option<string>` whose `None` is a missing file. Read errors (`IOError`) are not modelled.
- `config.py` is not part of this model. Its values are taken from the constants block of `Codigocompleto.py`.
- Random.Chance: only the draw it consumes is modelled; the 2% probability and the distributions of `shuffle` and `sample` are not. Each primitive consumes injected draws the way CPython's does.
- The character classes (`\w`, whitespace, `lower()`) cover ASCII and Latin-1 only, not all of Unicode.
- `norm_titles` is a dictionary in the source, so two titles with the same normal form would keep only the last. The ten fixed titles have distinct normal forms, and the model keeps the list.
- The page index of `build_section_htmls` is rebuilt inside the section loop in the source. The model builds it once per document, which gives the same result.
- `Pro03/Pacman.py:53` has 27 cells where every other row has 28. The model takes the layout as a parameter that must be rectangular, 31 rows by 28 columns, instead of the module-level list.
- The classic player's `draw` (Pro03/Pacman.py:94-102) and `show_message` (Pro03/Pacman.py:218-223) are not modelled: `show_message` draws the game-over or win text and waits three seconds, which is output and wall-clock time. The loop stopping on game over or win is modelled in Classic.Game.Tick.
- Game.Game.MoveGhosts: states that each ghost moved at most one step with legal state changes, not which step. The step itself is stated by Entities.Ghost.Update.
- Game.Game.UpdateGhosts: states the same, after the release check.
- Game.Game.Advance: states validity, the counters and a non-decreasing score. The details are stated by Game.Game.UpdatePlayer and Game.Game.UpdateGhosts.
- Classic.Game.UpdateGhosts: states that each ghost took one wrapped step. The step each ghost takes is stated by Classic.Game.UpdateGhost and Classic.Ghost.Update.
- Classic.Game.MoveRound: states bounds on lives and score only. The details are in Classic.Game.PlayerPhase, Classic.Game.GhostPhase and the members they call.
- Classic.Game.Frame: states bounds and the running flag only. Its parts are Classic.Game.HandleEvents and Classic.Game.Tick.
- Game.Game.Tick: for an active tick it states validity, the frame, the win condition and the bounds on lives and score. The details are in Game.Game.Step and the members it calls. The super-intro and death-pause branches are stated in full.
- Game.Game.Play: states validity, the bounds on lives and a non-decreasing score. What the moves and the collisions do is stated by Game.Game.Advance and Game.Game.Collisions.
- Classic.Game.PlayerPhase: when a life is lost it does not say which ghost caught the player. Classic.Game.CheckCollisions states that on the state after the move.
- Classic.Game.GhostPhase: with no life lost it states each ghost's wrapped step, not its target or new mode. Classic.Game.UpdateGhost states those for each ghost; the collision details are in Classic.Game.CheckCollisions.
- Scores.ParseInt: states only that a parsed text is not blank. The body follows `int()` on a sign, underscores between digits and surrounding whitespace, but not on non-ASCII digits.
