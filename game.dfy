/**
 * The game loop of `game.py`: one `Game` object holds the maze, the player, the
 * four ghosts and the counters, and `Tick` advances them by one frame. Window,
 * fonts, drawing and the real-time clock are not modelled; key presses arrive
 * through `KeyDown`, and the scores file is the list of lines the game appends.
 */
module Game {
  import opened Grid
  import opened Config
  import opened Random
  import opened Wrappers
  import opened Carving
  import opened Pathfinding
  import opened MazeGenerator
  import opened Entities
  import Scores

  /** The ghosts' places around the house centre, in creation order. */
  const HouseOffsets: seq<Pos> := [Pos(0, 0), Pos(-1, 0), Pos(1, 0), Pos(0, -1)]

  const Kinds: seq<GhostKind> := [Blinky, Pinky, Inky, Clyde]

  /** Where the player's start is searched from: `(COLS // 2, ROWS - 5)`. */
  const PlayerSearch: Pos := Pos(Cols / 2, Rows - 5)

  /** The house centre of the generated maze, whose width is `COLS - 1`. */
  const HouseSpot: Pos := Pos((Cols - 1) / 2, Rows / 2)

  /** `int(FPS * 1.5)`: how long the super-mode intro freezes the game. */
  const SuperIntroTicks: int := Fps * 3 / 2

  /** Ghost `i` leaves the house on the first active frame after this one. */
  function ReleaseFrame(i: int): int
  {
    i * 90 + 60
  }

  // ----- the house lookup -----

  /** The first column at or after `x` whose cell is the house centre. */
  function RowHouse(row: seq<int>, x: nat): Option<nat>
    decreases |row| - x
  {
    if x >= |row| then None else if row[x] == HouseCentre then Some(x) else RowHouse(row, x + 1)
  }

  /** The first house-centre cell in row-major order, from row `y` on. */
  function HouseFrom(g: Grid, y: nat): Option<Pos>
    decreases |g| - y
  {
    if y >= |g| then None
    else match RowHouse(g[y], 0)
      case Some(x) => Some(Pos(x, y))
      case None => HouseFrom(g, y + 1)
  }

  /** `next((x, y) for … if c == 4, (COLS // 2, ROWS // 2))`. */
  function HouseOf(g: Grid): Pos
  {
    match HouseFrom(g, 0)
    case Some(p) => p
    case None => Pos(Cols / 2, Rows / 2)
  }

  /** `q` comes before `p` in row-major order. */
  predicate Before(q: Pos, p: Pos)
  {
    q.y < p.y || (q.y == p.y && q.x < p.x)
  }

  lemma {:induction false} RowHouseFirst(row: seq<int>, x: nat)
    ensures RowHouse(row, x).Some? ==>
      var c := RowHouse(row, x).value;
      x <= c < |row| && row[c] == HouseCentre && forall i :: x <= i < c ==> row[i] != HouseCentre
    ensures RowHouse(row, x).None? ==> forall i :: x <= i < |row| ==> row[i] != HouseCentre
    decreases |row| - x
  {
    if x < |row| && row[x] != HouseCentre {
      RowHouseFirst(row, x + 1);
    }
  }

  lemma {:induction false} HouseFromFirst(g: Grid, y: nat)
    ensures HouseFrom(g, y).Some? ==>
      var c := HouseFrom(g, y).value;
      && InGrid(g, c) && c.y >= y && At(g, c) == HouseCentre
      && forall q :: InGrid(g, q) && q.y >= y && Before(q, c) ==> At(g, q) != HouseCentre
    ensures HouseFrom(g, y).None? ==> forall q :: InGrid(g, q) && q.y >= y ==> At(g, q) != HouseCentre
    decreases |g| - y
  {
    if y < |g| {
      RowHouseFirst(g[y], 0);
      HouseFromFirst(g, y + 1);
    }
  }

  /**
   * The house lookup finds the first house-centre cell in row-major order, and
   * falls back to `(COLS // 2, ROWS // 2)` only when there is none.
   */
  lemma HouseOfFirst(g: Grid)
    ensures (exists p :: InGrid(g, p) && At(g, p) == HouseCentre) ==>
      && InGrid(g, HouseOf(g)) && At(g, HouseOf(g)) == HouseCentre
      && forall q :: InGrid(g, q) && Before(q, HouseOf(g)) ==> At(g, q) != HouseCentre
    ensures (forall p :: InGrid(g, p) ==> At(g, p) != HouseCentre) ==> HouseOf(g) == Pos(Cols / 2, Rows / 2)
  {
    HouseFromFirst(g, 0);
  }

  /** The generator expression scanning the maze row by row for the house centre. */
  method FindHouse(maze: Grid) returns (c: Pos)
    ensures c == HouseOf(maze)
  {
    for y := 0 to |maze|
      invariant HouseFrom(maze, y) == HouseFrom(maze, 0)
    {
      for x := 0 to |maze[y]|
        invariant RowHouse(maze[y], x) == RowHouse(maze[y], 0)
      {
        if maze[y][x] == HouseCentre {
          return Pos(x, y);
        }
      }
    }
    return Pos(Cols / 2, Rows / 2);
  }

  // ----- what the game keeps true of its maze -----

  predicate HouseAt(maze: Grid, p: Pos)
  {
    InGrid(maze, p) && At(maze, p) == HouseCentre
  }

  /** The four places around a house centre can be walked on. */
  ghost predicate HomeOpen(maze: Grid, c: Pos)
  {
    forall i :: 0 <= i < |HouseOffsets| ==> Walkable(maze, c.Plus(HouseOffsets[i]))
  }

  /**
   * The maze as the game keeps it: bordered, `ROWS` by `COLS - 1`, the room at
   * `(1, ROWS - 2)` open, the house centre in place, and every house-centre cell
   * with open places around it.
   */
  ghost predicate Playable(maze: Grid)
  {
    && Bordered(maze) && |maze| == Rows && |maze[0]| == Cols - 1
    && Walkable(maze, Pos(1, Rows - 2))
    && HouseAt(maze, HouseSpot)
    && forall p :: HouseAt(maze, p) ==> HomeOpen(maze, p)
  }

  /** What `gerar_labirinto()` promises for the game's dimensions makes the maze playable. */
  lemma GeneratedPlayable(maze: Grid)
    requires Shape(maze, Rows, Cols - 1)
    requires forall p :: InGrid(maze, p) && InHouse(Rows, Cols - 1, p) ==>
      At(maze, p) == if p == Centre(Rows, Cols - 1) then HouseCentre else Empty
    requires forall p :: InGrid(maze, p) && !InHouse(Rows, Cols - 1, p) ==>
      At(maze, p) == Wall || At(maze, p) == Pellet || At(maze, p) == PowerPellet
    requires forall p :: InGrid(maze, p) && !Interior(Rows, Cols - 1, p) ==> At(maze, p) == Wall
    requires forall p :: Room(Rows, Cols - 1, p) ==> Walkable(maze, p)
    ensures Playable(maze)
    ensures HouseOf(maze) == HouseSpot
  {
    assert Room(Rows, Cols - 1, Pos(1, Rows - 2));
    assert Centre(Rows, Cols - 1) == HouseSpot;
    forall p | HouseAt(maze, p)
      ensures p == HouseSpot && HomeOpen(maze, p)
    {
      assert InHouse(Rows, Cols - 1, p);
      forall i | 0 <= i < |HouseOffsets|
        ensures Walkable(maze, p.Plus(HouseOffsets[i]))
      {
        assert InHouse(Rows, Cols - 1, p.Plus(HouseOffsets[i]));
      }
    }
    HouseOfFirst(maze);
  }

  /** Eating a pellet keeps the maze playable and changes no cell's walkability. */
  lemma EatKeepsPlayable(maze: Grid, n: Pos)
    requires Playable(maze) && InGrid(maze, n) && (At(maze, n) == Pellet || At(maze, n) == PowerPellet)
    ensures Playable(Set(maze, n, Empty))
    ensures forall p :: Walkable(Set(maze, n, Empty), p) <==> Walkable(maze, p)
  {
    var h := Set(maze, n, Empty);
    forall p | HouseAt(h, p)
      ensures HomeOpen(h, p)
    {
      assert HouseAt(maze, p);
      forall i | 0 <= i < |HouseOffsets|
        ensures Walkable(h, p.Plus(HouseOffsets[i]))
      {
        assert Walkable(maze, p.Plus(HouseOffsets[i]));
      }
    }
  }

  /** On a playable maze, every unit step from a walkable cell stays within the bounds check. */
  lemma AroundIndexable(maze: Grid, p: Pos)
    requires Playable(maze) && Walkable(maze, p)
    ensures forall d :: IsUnit(d) ==> Indexable(maze, p.Plus(d))
  {
    forall d | IsUnit(d)
      ensures Indexable(maze, p.Plus(d))
    {
      StepIndexable(maze, p, d);
    }
  }

  /** A direction the player can hold: none, or one unit step. */
  predicate Heading(dx: int, dy: int)
  {
    (dx == 0 && dy == 0) || IsUnit(Pos(dx, dy))
  }

  /** Whatever the player holds as direction, the bounds test on the cell ahead agrees with walkability. */
  lemma AheadIndexable(maze: Grid, p: Pos, dx: int, dy: int)
    requires Playable(maze) && Walkable(maze, p) && Heading(dx, dy)
    ensures Indexable(maze, Pos(p.x + dx, p.y + dy))
    ensures Passable(maze, Pos(p.x + dx, p.y + dy)) <==> Walkable(maze, Pos(p.x + dx, p.y + dy))
  {
    if dx != 0 || dy != 0 {
      StepIndexable(maze, p, Pos(dx, dy));
    }
  }

  // ----- collisions, on the ghosts' states and cells as values -----

  /** A ghost in this state kills the player on contact (a housed ghost too). */
  predicate Lethal(s: GhostState)
  {
    s != Vulnerable && s != Eaten
  }

  /** How many of the first `k` ghosts are vulnerable and on `p`: the ghosts a sweep up to `k` eats. */
  ghost function Edible(gs: seq<Ghost>, p: Pos, k: nat): nat
    requires k <= |gs|
    reads gs
  {
    if k == 0 then 0
    else Edible(gs, p, k - 1) + (if gs[k - 1].Cell() == p && gs[k - 1].state == Vulnerable then 1 else 0)
  }

  ghost function States(gs: seq<Ghost>): (r: seq<GhostState>)
    reads gs
    ensures |r| == |gs| && forall i :: 0 <= i < |gs| ==> r[i] == gs[i].state
  {
    if |gs| == 0 then [] else States(gs[..|gs| - 1]) + [gs[|gs| - 1].state]
  }

  ghost function Cells(gs: seq<Ghost>): (r: seq<Pos>)
    reads gs
    ensures |r| == |gs| && forall i :: 0 <= i < |gs| ==> r[i] == gs[i].Cell()
  {
    if |gs| == 0 then [] else Cells(gs[..|gs| - 1]) + [gs[|gs| - 1].Cell()]
  }

  ghost function Timers(gs: seq<Ghost>): (r: seq<int>)
    reads gs
    ensures |r| == |gs| && forall i :: 0 <= i < |gs| ==> r[i] == gs[i].vulTimer
  {
    if |gs| == 0 then [] else Timers(gs[..|gs| - 1]) + [gs[|gs| - 1].vulTimer]
  }

  /**
   * What one ghost update can do: move by at most one cell; a housed ghost stays
   * housed and in place, no other ghost enters the house, and none becomes eaten.
   */
  predicate Stepped(c0: Pos, s0: GhostState, c: Pos, s: GhostState)
  {
    && (c == c0 || Adjacent(c0, c))
    && (s == House <==> s0 == House)
    && (s == House ==> c == c0)
    && (s == Eaten ==> s0 == Eaten)
  }

  // ----- the game -----

  datatype Key = Up | Down | Left | Right | Escape | OtherKey

  /** The direction an arrow key asks for. */
  function Arrow(k: Key): (d: Option<Pos>)
    ensures d.Some? <==> k != Escape && k != OtherKey
    ensures d.Some? ==> IsUnit(d.value)
  {
    match k
    case Up => Some(Pos(0, -1))
    case Down => Some(Pos(0, 1))
    case Left => Some(Pos(-1, 0))
    case Right => Some(Pos(1, 0))
    case _ => None
  }

  /**
   * The maze-dependent part of a new game: the generated maze, the player's start
   * (the walkable cell nearest to `(COLS // 2, ROWS - 5)`) and the house centre.
   */
  method NewMaze(rng0: Rng) returns (m: Grid, r: Rng, p: Pos, c: Pos)
    ensures Playable(m) && c == HouseSpot && c == HouseOf(m) && HomeOpen(m, c)
    ensures Walkable(m, p) && p.y >= PlayerSearch.y
    ensures Walkable(m, PlayerSearch) ==> p == PlayerSearch
  {
    m, r := GenerateMaze(Rows, Cols, rng0);
    GeneratedPlayable(m);
    p := PlayerStart(m);
    c := HouseHome(m);
  }

  /** `find_nearest_walkable_global(maze, COLS // 2, ROWS - 5)` on a playable maze: an open cell at or below the search row. */
  method PlayerStart(maze: Grid) returns (p: Pos)
    requires Playable(maze)
    ensures Walkable(maze, p) && p.y >= PlayerSearch.y
    ensures Walkable(maze, PlayerSearch) ==> p == PlayerSearch
  {
    assert Walkable(maze, Pos(1, Rows - 2)) && Pos(1, Rows - 2).y >= PlayerSearch.y;
    assert InGrid(maze, PlayerSearch);
    p := NearestWalkable(maze, PlayerSearch.x, PlayerSearch.y);
  }

  /** The house lookup on a playable maze finds a centre with open places around it. */
  method HouseHome(maze: Grid) returns (c: Pos)
    requires Playable(maze)
    ensures c == HouseOf(maze) && HouseAt(maze, c) && HomeOpen(maze, c)
  {
    c := FindHouse(maze);
    HouseOfFirst(maze);
    assert HouseAt(maze, HouseSpot);
  }

  /** `_create_entities`' ghosts: Blinky on the house centre, Pinky left of it, Inky right of it, Clyde above it. */
  method NewGhosts(c: Pos) returns (gs: seq<Ghost>)
    ensures |gs| == |Kinds| && forall i, j :: 0 <= i < j < |gs| ==> gs[i] != gs[j]
    ensures forall i :: 0 <= i < |gs| ==> fresh(gs[i])
    ensures forall i :: 0 <= i < |gs| ==>
      gs[i].kind == Kinds[i] && gs[i].Cell() == c.Plus(HouseOffsets[i]) && gs[i].state == House
  {
    var blinky := new Ghost(c.x, c.y, Blinky);
    var pinky := new Ghost(c.x - 1, c.y, Pinky);
    var inky := new Ghost(c.x + 1, c.y, Inky);
    var clyde := new Ghost(c.x, c.y - 1, Clyde);
    gs := [blinky, pinky, inky, clyde];
  }

  class Game {
    const name: string
    const player: Player
    /** Blinky, Pinky, Inky and Clyde, in that order. */
    const ghosts: seq<Ghost>
    var maze: Grid
    var lives: int
    var frame: nat
    var running: bool
    var started: bool
    var gameOver: bool
    var win: bool
    var pausedForDeath: bool
    var superIntro: nat
    var playerMoveTimer: nat
    var ghostMoveTimer: nat
    var rng: Rng
    /** The scores file; the game appends one line to it when it ends. */
    var scores: Option<string>
    /** The scores file as it was when the game began. */
    ghost const scores0: Option<string>
    /** The points of the pellets in the maze as generated. */
    ghost const pellets: nat
    /** How many ghosts the player has eaten. */
    ghost var eaten: nat

    /** Four distinct ghosts of the four kinds, in creation order. */
    predicate Team()
    {
      && |ghosts| == |Kinds|
      && (forall i, j :: 0 <= i < j < |ghosts| ==> ghosts[i] != ghosts[j])
      && forall i :: 0 <= i < |ghosts| ==> ghosts[i].kind == Kinds[i]
    }

    ghost predicate GhostsOn(m: Grid)
      reads ghosts`x, ghosts`y
    {
      forall i :: 0 <= i < |ghosts| ==> Walkable(m, ghosts[i].Cell())
    }

    /** The player stands on an open cell, heads nowhere or one step, and is dying exactly during the death pause. */
    ghost predicate PlayerOk()
      reads this`maze, this`pausedForDeath, player
    {
      && Walkable(maze, player.Cell()) && Heading(player.dx, player.dy)
      && (player.isDying <==> pausedForDeath) && player.superTimer >= 0
    }

    /** Lives between 0 and 3 and at least 1 while playing, timers in range, a won game with no pellet left. */
    ghost predicate CountersOk()
      reads this`lives, this`pausedForDeath, this`gameOver, this`win, this`maze
      reads this`playerMoveTimer, this`ghostMoveTimer
    {
      && 0 <= lives <= InitialLives
      && (!pausedForDeath && !gameOver ==> lives >= 1)
      && (gameOver && !win ==> lives == 0)
      && (win ==> gameOver && !HasPellets(maze))
      && playerMoveTimer < PlayerMoveDelay && ghostMoveTimer < GhostMoveDelay
    }

    /**
     * The score is the pellet points eaten plus 200 per ghost eaten, and the scores
     * file holds one more line, for this game, once it is over.
     */
    ghost predicate ScoreOk()
      reads this`maze, this`eaten, this`gameOver, this`scores, player`score
    {
      && player.score + Points(maze) == pellets + 200 * eaten
      && scores == if gameOver then Scores.Append(scores0, Scores.Line(name, player.score)) else scores0
    }

    /** What every frame keeps. */
    ghost predicate Valid()
      reads this, player, ghosts
    {
      Playable(maze) && Team() && GhostsOn(maze) && PlayerOk() && CountersOk() && ScoreOk()
    }

    /**
     * `__init__` and `_new_game`: a generated maze, the player on the walkable cell
     * nearest to `(COLS // 2, ROWS - 5)`, the four ghosts in the house around its
     * centre, three lives, and nothing started.
     */
    constructor (name0: string, scores1: Option<string>, rng0: Rng)
      ensures Valid() && fresh(player) && forall i :: 0 <= i < |ghosts| ==> fresh(ghosts[i])
      ensures name == name0 && scores == scores1 && lives == InitialLives && frame == 0 && running
      ensures !started && !gameOver && !win && !pausedForDeath
      ensures superIntro == 0 && playerMoveTimer == 0 && ghostMoveTimer == 0
      ensures player.score == 0 && player.dx == 0 && player.dy == 0 && player.superTimer == 0
      ensures Walkable(maze, PlayerSearch) ==> player.Cell() == PlayerSearch
      ensures player.Cell().y >= PlayerSearch.y
      ensures Points(maze) == pellets && eaten == 0
      ensures forall i :: 0 <= i < |ghosts| ==>
        ghosts[i].Cell() == HouseSpot.Plus(HouseOffsets[i]) && ghosts[i].state == House
    {
      var m, r, p, c := NewMaze(rng0);
      var gs := NewGhosts(c);
      name := name0;
      player := new Player(p.x, p.y);
      ghosts := gs;
      maze, rng := m, r;
      scores, scores0 := scores1, scores1;
      pellets, eaten := Points(m), 0;
      lives, frame, running := InitialLives, 0, true;
      gameOver, win, started := false, false, false;
      pausedForDeath := false;
      superIntro, playerMoveTimer, ghostMoveTimer := 0, 0, 0;
    }

    /** The quit event and the escape key end the run loop. */
    method Quit()
      modifies this`running
      ensures !running
    {
      running := false;
    }

    /**
     * `_handle_events` for one key press: escape ends the run loop; any key while
     * the game is neither over nor paused for a death starts it, and an arrow key
     * then turns the player if the cell that way is open.
     */
    method KeyDown(k: Key)
      requires Valid()
      modifies this`running, this`started, player`dx, player`dy
      ensures Valid()
      ensures running == (old(running) && k != Escape)
      ensures started == (old(started) || (!gameOver && !pausedForDeath))
      ensures var d := Arrow(k);
        if !gameOver && !pausedForDeath && d.Some? && Walkable(maze, player.Cell().Plus(d.value)) then
          player.dx == d.value.x && player.dy == d.value.y
        else
          player.dx == old(player.dx) && player.dy == old(player.dy)
    {
      if k == Escape {
        Quit();
      }
      if !gameOver && !pausedForDeath {
        started := true;
        var d := Arrow(k);
        if d.Some? {
          Turn(d.value);
        }
      }
    }

    /** `try_set_direction` on a maze the game keeps playable: the player turns only towards an open cell. */
    method Turn(d: Pos)
      requires Bordered(maze) && PlayerOk() && IsUnit(d)
      modifies player`dx, player`dy
      ensures PlayerOk()
      ensures if Walkable(maze, player.Cell().Plus(d)) then player.dx == d.x && player.dy == d.y
        else player.dx == old(player.dx) && player.dy == old(player.dy)
    {
      StepIndexable(maze, player.Cell(), d);
      player.TrySetDirection(d.x, d.y, maze);
    }

    /** `_handle_player_death`: one life less, the death animation starts and the game pauses. */
    method HandlePlayerDeath()
      modifies this`lives, this`pausedForDeath, player`isDying, player`deathTimer
      ensures lives == old(lives) - 1 && pausedForDeath && player.isDying && player.deathTimer == 60
    {
      lives := lives - 1;
      player.StartDying();
      pausedForDeath := true;
    }

    /** `_check_win_condition`: with no pellet left the game is won and the score saved. */
    method CheckWin()
      requires Valid() && !gameOver
      modifies this`gameOver, this`win, this`scores
      ensures Valid()
      ensures if HasPellets(maze) then gameOver == old(gameOver) && win == old(win) && scores == old(scores)
        else gameOver && win && scores == Scores.Append(old(scores), Scores.Line(name, player.score))
    {
      var left := AnyPellets(maze);
      if !left {
        gameOver, win := true, true;
        scores := Scores.Append(scores, Scores.Line(name, player.score));
      }
    }

    /** `next((g for g in self.ghosts if g.type == "blinky"), None)`. */
    method FindBlinky() returns (b: Option<Ghost>)
      ensures b.Some? ==>
        exists i :: 0 <= i < |ghosts| && b.value == ghosts[i] && ghosts[i].kind == Blinky &&
          forall j :: 0 <= j < i ==> ghosts[j].kind != Blinky
      ensures b.None? ==> forall i :: 0 <= i < |ghosts| ==> ghosts[i].kind != Blinky
    {
      for i := 0 to |ghosts|
        invariant forall j :: 0 <= j < i ==> ghosts[j].kind != Blinky
      {
        if ghosts[i].kind == Blinky {
          return Some(ghosts[i]);
        }
      }
      return None;
    }

    /** A housed ghost `i` is let out once the frame counter passes `i * 90 + 60`. */
    method ReleaseGhosts()
      requires Team() && GhostsOn(maze)
      modifies ghosts`state
      ensures GhostsOn(maze)
      ensures forall i :: 0 <= i < |ghosts| ==>
        ghosts[i].state == (if old(ghosts[i].state) == House && frame > ReleaseFrame(i) then Chase else old(ghosts[i].state))
    {
      for i := 0 to |ghosts|
        invariant forall j :: 0 <= j < |ghosts| ==>
          ghosts[j].state == (if j < i && old(ghosts[j].state) == House && frame > ReleaseFrame(j) then Chase else old(ghosts[j].state))
      {
        if ghosts[i].state == House && frame > ReleaseFrame(i) {
          ghosts[i].state := Chase;
        }
      }
    }

    /** Super mode frightens every ghost that is not eaten for `SUPER_MODE_DURATION` ticks. */
    method Frighten()
      requires Team()
      modifies ghosts`state, ghosts`vulTimer
      ensures forall i :: 0 <= i < |ghosts| ==>
        if old(ghosts[i].state) == Eaten then ghosts[i].state == Eaten && ghosts[i].vulTimer == old(ghosts[i].vulTimer)
        else ghosts[i].state == Vulnerable && ghosts[i].vulTimer == SuperModeDuration
    {
      for i := 0 to |ghosts|
        invariant forall j :: 0 <= j < |ghosts| ==>
          if j < i && old(ghosts[j].state) != Eaten then ghosts[j].state == Vulnerable && ghosts[j].vulTimer == SuperModeDuration
          else ghosts[j].state == old(ghosts[j].state) && ghosts[j].vulTimer == old(ghosts[j].vulTimer)
      {
        if ghosts[i].state != Eaten {
          ghosts[i].state := Vulnerable;
          ghosts[i].vulTimer := SuperModeDuration;
        }
      }
    }

    /**
     * `_check_collisions`: in order, a vulnerable ghost on the player's cell is eaten
     * for 200 points, an eaten one is passed over, and any other ends the loop with
     * the player's death.
     */
    method CheckCollisions() returns (stop: nat)
      requires Team()
      modifies this`lives, this`pausedForDeath, this`eaten, player`score, player`isDying, player`deathTimer, ghosts`state
      ensures stop <= |ghosts|
      ensures forall j :: 0 <= j < stop ==> !(ghosts[j].Cell() == player.Cell() && Lethal(old(ghosts[j].state)))
      ensures stop < |ghosts| ==> ghosts[stop].Cell() == player.Cell() && Lethal(old(ghosts[stop].state))
      ensures forall i :: 0 <= i < |ghosts| ==>
        ghosts[i].state == if i < stop && ghosts[i].Cell() == player.Cell() && old(ghosts[i].state) == Vulnerable then Eaten else old(ghosts[i].state)
      ensures var n := old(Edible(ghosts, player.Cell(), stop));
        player.score == old(player.score) + 200 * n && eaten == old(eaten) + n
      ensures if stop < |ghosts| then lives == old(lives) - 1 && pausedForDeath && player.isDying && player.deathTimer == 60
        else lives == old(lives) && pausedForDeath == old(pausedForDeath) && player.isDying == old(player.isDying) && player.deathTimer == old(player.deathTimer)
    {
      ghost var states, cells, timers := States(ghosts), Cells(ghosts), Timers(ghosts);
      var p := player.Cell();
      stop := 0;
      while stop < |ghosts|
        invariant stop <= |ghosts| && Swept(states, cells, timers, p, stop)
        invariant player.score == old(player.score) + 200 * old(Edible(ghosts, p, stop))
        invariant eaten == old(eaten) + old(Edible(ghosts, p, stop))
        invariant lives == old(lives) && pausedForDeath == old(pausedForDeath)
        invariant player.isDying == old(player.isDying) && player.deathTimer == old(player.deathTimer)
      {
        var dead := Collide(ghosts[stop], stop, states, cells, timers);
        if dead {
          return;
        }
        stop := stop + 1;
      }
    }

    /** The sweep has passed the first `i` ghosts: none of them lethal, the vulnerable ones on `p` eaten. */
    ghost predicate Swept(states: seq<GhostState>, cells: seq<Pos>, timers: seq<int>, p: Pos, i: nat)
      reads ghosts
    {
      && |states| == |ghosts| && |cells| == |ghosts| && |timers| == |ghosts|
      && (forall j :: 0 <= j < i && j < |ghosts| ==> !(cells[j] == p && Lethal(states[j])))
      && (forall j :: 0 <= j < |ghosts| ==> ghosts[j].Cell() == cells[j] && ghosts[j].vulTimer == timers[j])
      && (forall j :: 0 <= j < |ghosts| ==>
            ghosts[j].state == if j < i && cells[j] == p && states[j] == Vulnerable then Eaten else states[j])
    }

    /** The collision loop's body for ghost `i`; `dead` says the loop stops there. */
    method Collide(g: Ghost, i: nat, ghost states: seq<GhostState>, ghost cells: seq<Pos>, ghost timers: seq<int>) returns (dead: bool)
      requires Team() && i < |ghosts| && g == ghosts[i] && Swept(states, cells, timers, player.Cell(), i)
      modifies this`lives, this`pausedForDeath, this`eaten, player`score, player`isDying, player`deathTimer, g`state
      ensures var edible := cells[i] == player.Cell() && states[i] == Vulnerable;
        && dead == (cells[i] == player.Cell() && Lethal(states[i]))
        && Swept(states, cells, timers, player.Cell(), if dead then i else i + 1)
        && player.score == old(player.score) + (if edible then 200 else 0)
        && eaten == old(eaten) + (if edible then 1 else 0)
        && if dead then lives == old(lives) - 1 && pausedForDeath && player.isDying && player.deathTimer == 60
           else lives == old(lives) && pausedForDeath == old(pausedForDeath) && player.isDying == old(player.isDying) && player.deathTimer == old(player.deathTimer)
    {
      dead := false;
      if g.x == player.x && g.y == player.y {
        if g.state == Vulnerable {
          g.state := Eaten;
          player.score := player.score + 200;
          eaten := eaten + 1;
        } else if g.state != Eaten {
          HandlePlayerDeath();
          dead := true;
        }
      }
    }

    /** Every ghost's `update`, in order, all aiming with the same Blinky. */
    method MoveGhosts(blinky: Option<Ghost>)
      requires Playable(maze) && Team() && GhostsOn(maze)
      modifies ghosts, this`rng
      ensures GhostsOn(maze)
      ensures forall i :: 0 <= i < |ghosts| ==>
        Stepped(old(ghosts[i].Cell()), old(ghosts[i].state), ghosts[i].Cell(), ghosts[i].state)
    {
      ghost var cells, states := Cells(ghosts), States(ghosts);
      for i := 0 to |ghosts|
        invariant MovedUpTo(cells, states, i)
      {
        MoveOne(ghosts[i], i, blinky, cells, states);
      }
    }

    /** The first `i` ghosts have taken their step from `cells` and `states`; the others are as they were. */
    ghost predicate MovedUpTo(cells: seq<Pos>, states: seq<GhostState>, i: nat)
      reads this`maze, ghosts
    {
      && |cells| == |ghosts| && |states| == |ghosts|
      && GhostsOn(maze)
      && forall j :: 0 <= j < |ghosts| ==>
           if j < i then Stepped(cells[j], states[j], ghosts[j].Cell(), ghosts[j].state)
           else ghosts[j].Cell() == cells[j] && ghosts[j].state == states[j]
    }

    /** `update` of ghost `i`, with the game's random source. */
    method MoveOne(g: Ghost, i: nat, blinky: Option<Ghost>, ghost cells: seq<Pos>, ghost states: seq<GhostState>)
      requires Playable(maze) && Team() && i < |ghosts| && g == ghosts[i] && MovedUpTo(cells, states, i)
      modifies g, this`rng
      ensures MovedUpTo(cells, states, i + 1)
    {
      var t := UpdateOne(g, blinky);
    }

    /**
     * One ghost's `update` on the game's maze: a step that keeps it on an open cell,
     * aimed at `target` as the ghost's state and kind choose it, and along a shortest
     * path when the ghost has one and its neighbours are free.
     */
    method UpdateOne(g: Ghost, blinky: Option<Ghost>) returns (ghost target: Pos)
      requires Playable(maze) && Walkable(maze, g.Cell())
      modifies g, this`rng
      ensures Walkable(maze, g.Cell()) && Stepped(old(g.Cell()), old(g.state), g.Cell(), g.state)
      ensures old(g.state) == House ==> g.Cell() == old(g.Cell()) && g.vulTimer == old(g.vulTimer) && rng == old(rng)
      ensures old(g.state) != House ==>
        var s := AfterTimer(old(g.state), old(g.vulTimer));
        && g.vulTimer == (if old(g.state) == Vulnerable then old(g.vulTimer) - 1 else old(g.vulTimer))
        && g.state == (if s == Eaten && g.Cell() == g.spawn then Chase else s)
        && Aims(maze, TargetTile(s, g.kind, old(g.Cell()), g.spawn, player.Cell(), Pos(player.dx, player.dy), old(BlinkyCell(blinky))), target)
      ensures old(g.state) != House && old(g.Cell()) != target && Reachable(maze, old(g.Cell()), target) && old(NoneBlocked(ghosts, g, g.Cell())) ==>
        exists n: nat :: Dist(maze, old(g.Cell()), target, n + 1) && Dist(maze, g.Cell(), target, n)
    {
      AroundIndexable(maze, g.Cell());
      var r, t, st := g.Update(maze, player, ghosts, blinky, rng);
      rng := r;
      target := t;
    }

    /**
     * Everybody where a life starts: the player on the walkable cell nearest to
     * `(COLS // 2, ROWS - 5)`, standing still and out of super mode, and the ghosts
     * housed around the house centre.
     */
    ghost predicate AtStart()
      reads this`maze, player, ghosts
    {
      && Walkable(maze, player.Cell()) && player.Cell().y >= PlayerSearch.y
      && (Walkable(maze, PlayerSearch) ==> player.Cell() == PlayerSearch)
      && player.dx == 0 && player.dy == 0 && player.superTimer == 0
      && forall i :: 0 <= i < |ghosts| && i < |HouseOffsets| ==>
           ghosts[i].Cell() == HouseOf(maze).Plus(HouseOffsets[i]) && ghosts[i].state == House
    }

    /** The ghosts' part of `_reset_positions`: back to their places around `c`, all housed. */
    method HomeGhosts(c: Pos)
      requires Team()
      modifies ghosts
      ensures forall i :: 0 <= i < |ghosts| ==>
        ghosts[i].Cell() == c.Plus(HouseOffsets[i]) && ghosts[i].state == House && ghosts[i].vulTimer == old(ghosts[i].vulTimer)
    {
      ghosts[0].x, ghosts[0].y := c.x, c.y;
      ghosts[1].x, ghosts[1].y := c.x - 1, c.y;
      ghosts[2].x, ghosts[2].y := c.x + 1, c.y;
      ghosts[3].x, ghosts[3].y := c.x, c.y - 1;
      for i := 0 to |ghosts|
        invariant forall j :: 0 <= j < |ghosts| ==>
          ghosts[j].Cell() == c.Plus(HouseOffsets[j]) && ghosts[j].vulTimer == old(ghosts[j].vulTimer)
        invariant forall j :: 0 <= j < i ==> ghosts[j].state == House
      {
        ghosts[i].state := House;
      }
    }

    /**
     * `_reset_positions`: the game waits for a key again and everybody is back at the
     * start; the maze, score, frame counter and the ghosts' timers are kept.
     */
    method ResetPositions()
      requires Playable(maze) && Team()
      modifies this`started, player`x, player`y, player`dx, player`dy, player`superTimer, ghosts
      ensures !started && AtStart() && GhostsOn(maze)
      ensures forall i :: 0 <= i < |ghosts| ==> ghosts[i].vulTimer == old(ghosts[i].vulTimer)
    {
      started := false;
      var p := PlayerStart(maze);
      player.x, player.y := p.x, p.y;
      player.dx, player.dy := 0, 0;
      player.superTimer := 0;
      var c := HouseHome(maze);
      HomeGhosts(c);
    }

    /**
     * `_handle_player_death_end`: the pause ends; with lives left everybody goes back
     * to the start, otherwise the game is lost and the score saved.
     */
    method HandleDeathEnd()
      requires Playable(maze) && Team()
      modifies this`pausedForDeath, this`gameOver, this`win, this`scores, this`started
      modifies player`x, player`y, player`dx, player`dy, player`superTimer, ghosts
      ensures !pausedForDeath
      ensures lives > 0 ==> !started && AtStart() && GhostsOn(maze) && gameOver == old(gameOver) && win == old(win) && scores == old(scores)
      ensures lives <= 0 ==>
        && gameOver && !win && scores == Scores.Append(old(scores), Scores.Line(name, player.score))
        && started == old(started) && unchanged(player) && unchanged(ghosts)
    {
      pausedForDeath := false;
      if lives > 0 {
        ResetPositions();
      } else {
        gameOver, win := true, false;
        scores := Scores.Append(scores, Scores.Line(name, player.score));
      }
    }

    /**
     * The move part of `_update_player`: one step the way the player heads, clearing
     * and scoring the pellet there; `power` reports a power pellet.
     */
    method MovePlayer() returns (power: bool)
      requires Playable(maze) && PlayerOk()
      modifies this`maze, player`x, player`y, player`score, player`superTimer
      ensures Playable(maze) && PlayerOk()
      ensures forall p :: Walkable(maze, p) <==> Walkable(old(maze), p)
      ensures var n := old(player.Ahead());
        if Walkable(old(maze), n) then
          && player.Cell() == n
          && maze == (if At(old(maze), n) == Pellet || At(old(maze), n) == PowerPellet then Set(old(maze), n, Empty) else old(maze))
          && power == (At(old(maze), n) == PowerPellet)
        else
          player.Cell() == old(player.Cell()) && maze == old(maze) && !power
      ensures player.superTimer == (if power then SuperModeDuration else old(player.superTimer))
      ensures player.score + Points(maze) == old(player.score) + Points(old(maze))
      ensures player.score >= old(player.score)
    {
      var n := player.Ahead();
      AheadIndexable(maze, player.Cell(), player.dx, player.dy);
      if Walkable(maze, n) && (At(maze, n) == Pellet || At(maze, n) == PowerPellet) {
        EatKeepsPlayable(maze, n);
      }
      var m;
      m, power := player.Move(maze);
      maze := m;
    }

    /**
     * The movement half of `_update_player`: every `PLAYER_MOVE_DELAY`-th call the
     * player moves one cell, eating what lies there.
     */
    method PlayerStep() returns (power: bool)
      requires Playable(maze) && PlayerOk() && GhostsOn(maze)
      requires playerMoveTimer < PlayerMoveDelay
      modifies this`playerMoveTimer, this`maze, player`x, player`y, player`score, player`superTimer
      ensures Playable(maze) && PlayerOk() && GhostsOn(maze)
      ensures playerMoveTimer == (old(playerMoveTimer) + 1) % PlayerMoveDelay
      ensures player.score + Points(maze) == old(player.score) + Points(old(maze)) && player.score >= old(player.score)
      ensures var n := old(player.Ahead());
        var go := old(playerMoveTimer) + 1 == PlayerMoveDelay && Walkable(old(maze), n);
        && player.Cell() == (if go then n else old(player.Cell()))
        && power == (go && At(old(maze), n) == PowerPellet)
      ensures player.superTimer == (if power then SuperModeDuration else old(player.superTimer))
    {
      power := false;
      playerMoveTimer := playerMoveTimer + 1;
      if playerMoveTimer >= PlayerMoveDelay {
        playerMoveTimer := 0;
        power := MovePlayer();
      }
    }

    /**
     * `_update_player`: the movement step; a power pellet freezes the game for the
     * super-mode intro and frightens every ghost that is not eaten; then the
     * player's own super-mode countdown runs.
     */
    method UpdatePlayer() returns (power: bool)
      requires Playable(maze) && PlayerOk() && Team() && GhostsOn(maze) && !player.isDying
      requires playerMoveTimer < PlayerMoveDelay
      modifies this`playerMoveTimer, this`maze, this`superIntro, player`x, player`y, player`score, player`superTimer
      modifies player`isDying, player`deathTimer, ghosts`state, ghosts`vulTimer
      ensures Playable(maze) && PlayerOk() && GhostsOn(maze) && !player.isDying && player.deathTimer == old(player.deathTimer)
      ensures playerMoveTimer == (old(playerMoveTimer) + 1) % PlayerMoveDelay
      ensures player.score + Points(maze) == old(player.score) + Points(old(maze)) && player.score >= old(player.score)
      ensures var n := old(player.Ahead());
        var go := old(playerMoveTimer) + 1 == PlayerMoveDelay && Walkable(old(maze), n);
        && player.Cell() == (if go then n else old(player.Cell()))
        && power == (go && At(old(maze), n) == PowerPellet)
      ensures player.superTimer == SuperTick(if power then SuperModeDuration else old(player.superTimer))
      ensures superIntro == (if power then SuperIntroTicks else old(superIntro))
      ensures forall i :: 0 <= i < |ghosts| ==>
        if power && old(ghosts[i].state) != Eaten then ghosts[i].state == Vulnerable && ghosts[i].vulTimer == SuperModeDuration
        else ghosts[i].state == old(ghosts[i].state) && ghosts[i].vulTimer == old(ghosts[i].vulTimer)
    {
      power := PlayerStep();
      PowerUp(power);
      player.Update();
    }

    /** A power pellet starts the super-mode intro and frightens the ghosts; otherwise nothing happens. */
    method PowerUp(power: bool)
      requires Team() && GhostsOn(maze)
      modifies this`superIntro, ghosts`state, ghosts`vulTimer
      ensures GhostsOn(maze)
      ensures superIntro == (if power then SuperIntroTicks else old(superIntro))
      ensures forall i :: 0 <= i < |ghosts| ==>
        if power && old(ghosts[i].state) != Eaten then ghosts[i].state == Vulnerable && ghosts[i].vulTimer == SuperModeDuration
        else ghosts[i].state == old(ghosts[i].state) && ghosts[i].vulTimer == old(ghosts[i].vulTimer)
    {
      if power {
        superIntro := SuperIntroTicks;
        Frighten();
      }
    }

    /**
     * The movement half of `_update_ghosts`: every `GHOST_MOVE_DELAY`-th call all
     * ghosts update, aiming with the first Blinky.
     */
    method GhostStep()
      requires Playable(maze) && Team() && GhostsOn(maze) && ghostMoveTimer < GhostMoveDelay
      modifies this`ghostMoveTimer, this`rng, ghosts
      ensures GhostsOn(maze)
      ensures ghostMoveTimer == (old(ghostMoveTimer) + 1) % GhostMoveDelay
      ensures forall i :: 0 <= i < |ghosts| ==>
        if ghostMoveTimer == 0 then Stepped(old(ghosts[i].Cell()), old(ghosts[i].state), ghosts[i].Cell(), ghosts[i].state)
        else ghosts[i].Cell() == old(ghosts[i].Cell()) && ghosts[i].state == old(ghosts[i].state)
    {
      ghostMoveTimer := ghostMoveTimer + 1;
      if ghostMoveTimer >= GhostMoveDelay {
        ghostMoveTimer := 0;
        var blinky := FindBlinky();
        MoveGhosts(blinky);
      }
    }

    /** `_update_ghosts`: the housed ghosts whose time has come are let out, then the ghosts move. */
    method UpdateGhosts()
      requires Playable(maze) && Team() && GhostsOn(maze) && ghostMoveTimer < GhostMoveDelay
      modifies this`ghostMoveTimer, this`rng, ghosts
      ensures GhostsOn(maze)
      ensures ghostMoveTimer == (old(ghostMoveTimer) + 1) % GhostMoveDelay
      ensures forall i :: 0 <= i < |ghosts| ==>
        var s := if old(ghosts[i].state) == House && frame > ReleaseFrame(i) then Chase else old(ghosts[i].state);
        if ghostMoveTimer == 0 then Stepped(old(ghosts[i].Cell()), s, ghosts[i].Cell(), ghosts[i].state)
        else ghosts[i].Cell() == old(ghosts[i].Cell()) && ghosts[i].state == s
    {
      ReleaseGhosts();
      GhostStep();
    }

    /**
     * The moving half of a frame of play: `_update_player` then `_update_ghosts`.
     * Everything the invariant ties together is kept; the collisions are not looked at.
     */
    method Advance()
      requires Valid() && !gameOver && !pausedForDeath
      modifies this`playerMoveTimer, this`ghostMoveTimer, this`maze, this`superIntro, this`rng
      modifies player`x, player`y, player`score, player`superTimer, player`isDying, player`deathTimer, ghosts
      ensures Valid()
      ensures playerMoveTimer == (old(playerMoveTimer) + 1) % PlayerMoveDelay
      ensures ghostMoveTimer == (old(ghostMoveTimer) + 1) % GhostMoveDelay
      ensures player.score >= old(player.score)
    {
      var power := UpdatePlayer();
      UpdateGhosts();
    }

    /**
     * The collision test of a frame of play: the ghosts before `stop` are passed, the
     * vulnerable ones on the player's cell eaten for 200 points each; a lethal ghost
     * at `stop` costs one life and starts the death pause. The invariant is kept.
     */
    method Collisions() returns (stop: nat)
      requires Valid() && !gameOver && !pausedForDeath
      modifies this`lives, this`pausedForDeath, this`eaten, player`score, player`isDying, player`deathTimer, ghosts`state
      ensures Valid() && !gameOver && player.score >= old(player.score)
      ensures (lives == old(lives) && !pausedForDeath) || (lives == old(lives) - 1 && pausedForDeath && player.isDying)
      ensures stop <= |ghosts|
      ensures forall j :: 0 <= j < stop ==> !(ghosts[j].Cell() == player.Cell() && Lethal(old(ghosts[j].state)))
      ensures stop < |ghosts| ==> ghosts[stop].Cell() == player.Cell() && Lethal(old(ghosts[stop].state))
      ensures forall i :: 0 <= i < |ghosts| ==>
        ghosts[i].state == if i < stop && ghosts[i].Cell() == player.Cell() && old(ghosts[i].state) == Vulnerable then Eaten else old(ghosts[i].state)
      ensures var n := old(Edible(ghosts, player.Cell(), stop));
        player.score == old(player.score) + 200 * n && eaten == old(eaten) + n
      ensures (lives < old(lives)) <==> stop < |ghosts|
    {
      stop := CheckCollisions();
    }

    /**
     * The end of a frame of play: `_check_win_condition` and the frame counter. The
     * game ends, won, exactly when the last pellet is gone.
     */
    method EndFrame()
      requires Valid() && !gameOver
      modifies this`gameOver, this`win, this`scores, this`frame
      ensures Valid() && frame == old(frame) + 1
      ensures (gameOver <==> !HasPellets(maze)) && win == gameOver
    {
      CheckWin();
      frame := frame + 1;
    }

    /**
     * One frame of play, the tail of `_update`: the player and the ghosts move, the
     * collisions and the win test run, and the frame counter advances.
     */
    method Step()
      requires Valid() && !gameOver && !pausedForDeath
      modifies this`playerMoveTimer, this`ghostMoveTimer, this`maze, this`superIntro, this`rng, this`lives
      modifies this`pausedForDeath, this`eaten, this`gameOver, this`win, this`scores, this`frame
      modifies player`x, player`y, player`score, player`superTimer, player`isDying, player`deathTimer, ghosts
      ensures Valid() && frame == old(frame) + 1 && player.score >= old(player.score)
      ensures lives == old(lives) || (lives == old(lives) - 1 && pausedForDeath)
      ensures (gameOver <==> !HasPellets(maze)) && win == gameOver
    {
      Play();
      EndFrame();
    }

    /** The moves and the collisions of a frame of play. */
    method Play()
      requires Valid() && !gameOver && !pausedForDeath
      modifies this`playerMoveTimer, this`ghostMoveTimer, this`maze, this`superIntro, this`rng, this`lives
      modifies this`pausedForDeath, this`eaten
      modifies player`x, player`y, player`score, player`superTimer, player`isDying, player`deathTimer, ghosts
      ensures Valid() && !gameOver && player.score >= old(player.score)
      ensures lives == old(lives) || (lives == old(lives) - 1 && pausedForDeath)
    {
      Advance();
      var stop := Collisions();
    }

    /**
     * `_update` during the death pause: the death countdown runs, and when it ends
     * the game either resets the positions or is over.
     */
    method DeathPause()
      requires Valid() && !gameOver && pausedForDeath
      modifies this`pausedForDeath, this`gameOver, this`win, this`scores, this`started
      modifies player`x, player`y, player`dx, player`dy, player`superTimer, player`isDying, player`deathTimer, ghosts
      ensures Valid()
      ensures (player.isDying, player.deathTimer) == DeathTick((old(player.isDying), old(player.deathTimer)))
      ensures player.score == old(player.score) && lives == old(lives)
      ensures player.isDying ==> pausedForDeath && !gameOver && started == old(started) && player.Cell() == old(player.Cell())
      ensures !player.isDying && lives > 0 ==> !pausedForDeath && !gameOver && !started && AtStart()
      ensures !player.isDying && lives == 0 ==> !pausedForDeath && gameOver && !win && player.Cell() == old(player.Cell())
    {
      player.Update();
      if !player.isDying {
        HandleDeathEnd();
      }
    }

    /**
     * `_update`: nothing once the game is over; the super-mode intro counts down and
     * freezes everything else; the death pause; nothing before the first key; else
     * one frame of play.
     */
    method Tick()
      requires Valid()
      modifies this`playerMoveTimer, this`ghostMoveTimer, this`maze, this`superIntro, this`rng, this`lives
      modifies this`pausedForDeath, this`eaten, this`gameOver, this`win, this`scores, this`frame, this`started
      modifies player`x, player`y, player`dx, player`dy, player`score, player`superTimer, player`isDying, player`deathTimer, ghosts
      ensures Valid()
      ensures player.score >= old(player.score) && lives <= old(lives)
      ensures old(gameOver) ==> unchanged(this, player, ghosts)
      ensures !old(gameOver) && old(superIntro) > 0 ==>
        superIntro == old(superIntro) - 1 && unchanged(player, ghosts) && frame == old(frame) &&
        maze == old(maze) && lives == old(lives) && started == old(started) && pausedForDeath == old(pausedForDeath) &&
        !gameOver && win == old(win) && scores == old(scores) && eaten == old(eaten) && rng == old(rng) &&
        playerMoveTimer == old(playerMoveTimer) && ghostMoveTimer == old(ghostMoveTimer)
      ensures !old(gameOver) && old(superIntro) == 0 && old(pausedForDeath) ==>
        (player.isDying, player.deathTimer) == DeathTick((old(player.isDying), old(player.deathTimer))) &&
        player.score == old(player.score) && lives == old(lives) && superIntro == 0 && frame == old(frame) &&
        maze == old(maze) && eaten == old(eaten) && rng == old(rng) &&
        playerMoveTimer == old(playerMoveTimer) && ghostMoveTimer == old(ghostMoveTimer) &&
        (player.isDying ==> pausedForDeath && !gameOver && started == old(started) && player.Cell() == old(player.Cell())) &&
        (!player.isDying && lives > 0 ==> !pausedForDeath && !gameOver && !started && AtStart()) &&
        (!player.isDying && lives == 0 ==> !pausedForDeath && gameOver && !win && player.Cell() == old(player.Cell()))
      ensures !old(gameOver) && old(superIntro) == 0 && !old(pausedForDeath) && !old(started) ==> unchanged(this, player, ghosts)
      ensures !old(gameOver) && old(superIntro) == 0 && !old(pausedForDeath) && old(started) ==>
        frame == old(frame) + 1 && (gameOver <==> !HasPellets(maze))
    {
      if gameOver {
        return;
      }
      if superIntro > 0 {
        superIntro := superIntro - 1;
        return;
      }
      if pausedForDeath {
        DeathPause();
        return;
      }
      if !started {
        return;
      }
      Step();
    }
  }
}
