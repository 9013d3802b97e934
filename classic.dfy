/**
 * The objects of the classic Pac-Man (`Pro03/Pacman.py`): the player, the three
 * ghosts, and the game, whose fields are the program's globals (the maze, the
 * global mode clock, the move timer and the running, game-over and win flags).
 */
module Classic {
  import opened Grid
  import opened ClassicRules
  import Entities

  class Player {
    var x: int
    var y: int
    var dx: int
    var dy: int
    var score: int
    var lives: int

    constructor (x0: int, y0: int)
      ensures x == x0 && y == y0 && dx == 0 && dy == 0
      ensures score == 0 && lives == StartLives
    {
      x, y := x0, y0;
      dx, dy := 0, 0;
      score := 0;
      lives := StartLives;
    }

    function Cell(): Pos
      reads this`x, this`y
    {
      Pos(x, y)
    }

    function Heading(): Pos
      reads this`dx, this`dy
    {
      Pos(dx, dy)
    }

    /** An arrow key sets the heading, whatever lies that way; other keys change nothing. */
    method Press(k: Key)
      modifies this`dx, this`dy
      ensures Heading() == if k == OtherKey then old(Heading()) else KeyDir(k)
      ensures k != OtherKey ==> IsUnit(Heading())
    {
      match k
      case Left => dx, dy := -1, 0;
      case Right => dx, dy := 1, 0;
      case Up => dx, dy := 0, -1;
      case Down => dx, dy := 0, 1;
      case OtherKey =>
    }
  }

  class Ghost {
    const name: Name
    const start: Pos
    var x: int
    var y: int
    var dx: int
    var dy: int
    var mode: Mode
    var timer: int

    constructor (x0: int, y0: int, n: Name)
      ensures name == n && start == Pos(x0, y0)
      ensures x == x0 && y == y0 && dx == 0 && dy == -1
      ensures mode == Scatter && timer == 0
    {
      name := n;
      start := Pos(x0, y0);
      x, y := x0, y0;
      dx, dy := 0, -1;
      mode := Scatter;
      timer := 0;
    }

    function Cell(): Pos
      reads this`x, this`y
    {
      Pos(x, y)
    }

    function Heading(): Pos
      reads this`dx, this`dy
    {
      Pos(dx, dy)
    }

    function State(): Sprite
      reads this
    {
      Sprite(mode, timer, Cell(), Heading())
    }

    /** Back to the start cell after a lost life, in the mode the ghost restarts in. */
    method GoHome()
      modifies this`x, this`y, this`mode
      ensures Cell() == start && mode == RestartMode(name)
    {
      x, y := start.x, start.y;
      mode := if name == Vermelho then Scatter else Exiting;
    }

    /** A power pellet frightens every ghost but an eaten one; a frightened ghost also turns round. */
    method BecomeVulnerable()
      modifies this`mode, this`timer, this`dx, this`dy
      ensures State() == Frighten(old(State()))
    {
      if mode != Eaten {
        mode := Vulnerable;
        timer := VulnerableTicks;
        dx, dy := -dx, -dy;
      }
    }

    /** The heading part of a move: the chosen direction, or the reverse when stuck. */
    method Steer(maze: Grid, t: Pos)
      requires Shaped(maze) && IsUnit(Heading())
      modifies this`dx, this`dy
      ensures IsUnit(Heading())
      ensures Steered(maze, Cell(), old(Heading()), t, mode == Vulnerable, Heading())
    {
      var p, d := Cell(), Heading();
      var moves := PossibleMoves(maze, p, d);
      if |moves| > 0 {
        var k := PickIndex(moves, p, t, mode == Vulnerable);
        PickIsChosen(maze, p, d, t, mode == Vulnerable, moves);
        dx, dy := moves[k].x, moves[k].y;
      } else {
        NoCandidatesStuck(maze, p, d, moves);
        dx, dy := -dx, -dy;
      }
    }

    /**
     * One move towards `t`: the first best allowed direction (closest to the target,
     * or farthest while vulnerable), or back the way it came when none is allowed;
     * then the wrap at the edges and the house transitions.
     */
    method MoveTowards(maze: Grid, t: Pos)
      requires Shaped(maze) && OnBoard(Cell()) && IsUnit(Heading())
      modifies this`x, this`y, this`dx, this`dy, this`mode
      ensures OnBoard(Cell()) && IsUnit(Heading())
      ensures Steered(maze, old(Cell()), old(Heading()), t, old(mode) == Vulnerable, Heading())
      ensures Cell() == WrapStep(old(Cell()), Heading())
      ensures mode == Arrive(old(mode), Cell())
    {
      Steer(maze, t);
      x, y := Wrap(x + dx, Cols), Wrap(y + dy, Rows);
      Arrival();
    }

    /** The house transitions after a move: an exiting ghost at the door scatters, an eaten one at home leaves. */
    method Arrival()
      modifies this`mode
      ensures mode == Arrive(old(mode), Cell())
    {
      if mode == Exiting && Cell() == HouseDoor {
        mode := Scatter;
      }
      if mode == Eaten && Cell() == HouseInside {
        mode := Exiting;
      }
    }

    /**
     * One ghost update: the mode follows the vulnerability timer and the global
     * clock, then the ghost moves one cell towards its mode's target.
     */
    method Update(maze: Grid, player: Pos, global: Mode)
      requires Shaped(maze) && OnBoard(Cell()) && IsUnit(Heading())
      modifies this`x, this`y, this`dx, this`dy, this`mode, this`timer
      ensures OnBoard(Cell()) && IsUnit(Heading())
      ensures Stepped(old(State()), State())
      ensures Moved(maze, player, global, name, old(State()), State())
    {
      Retune(global);
      MoveTowards(maze, Target(mode, name, player));
    }

    /**
     * The mode part of an update: a vulnerable ghost counts its timer down and
     * takes the global mode when it runs out; an eaten or exiting ghost keeps its
     * mode; any other ghost takes the global mode.
     */
    method Retune(global: Mode)
      modifies this`mode, this`timer
      ensures mode == ClassicRules.Retune(old(mode), old(timer), global)
      ensures timer == if old(mode) == Vulnerable then old(timer) - 1 else old(timer)
    {
      if mode == Vulnerable {
        timer := timer - 1;
        if timer <= 0 {
          mode := global;
        }
      } else if mode != Eaten && mode != Exiting {
        mode := global;
      }
    }
  }

  /** The directions a ghost at `p` heading `d` may take, in the order it tries them. */
  method PossibleMoves(maze: Grid, p: Pos, d: Pos) returns (moves: seq<Pos>)
    requires Shaped(maze)
    ensures Candidates(maze, p, d, moves)
  {
    moves := [];
    for k := 0 to |Dirs|
      invariant forall i :: 0 <= i < |moves| ==> moves[i] in Dirs && DirIndex(moves[i]) < k
      invariant forall i :: 0 <= i < k ==> (Dirs[i] in moves <==> Allowed(maze, p, d, Dirs[i]))
      invariant forall i, j :: 0 <= i < j < |moves| ==> DirIndex(moves[i]) < DirIndex(moves[j])
    {
      var m := Dirs[k];
      if m == Reverse(d) {
        continue;
      }
      var n := p.Plus(m);
      if 0 <= n.x < Cols && 0 <= n.y < Rows {
        if Open(maze[n.y][n.x]) {
          moves := moves + [m];
        }
      }
    }
  }

  /** The eaten-or-not test of a collision: a ghost on the player's cell costs a life unless it is vulnerable or eaten. */
  predicate Deadly(m: Mode)
  {
    m != Vulnerable && m != Eaten
  }

  /** The number of vulnerable ghosts on cell `p` among the first `k`. */
  ghost function Edible(gs: seq<Ghost>, p: Pos, k: nat): nat
    requires k <= |gs|
    reads gs
  {
    if k == 0 then 0
    else Edible(gs, p, k - 1) + (if gs[k - 1].Cell() == p && gs[k - 1].mode == Vulnerable then 1 else 0)
  }

  /** Some ghost on cell `p` is neither vulnerable nor eaten. */
  ghost predicate Caught(gs: seq<Ghost>, p: Pos)
    reads gs
  {
    exists j :: 0 <= j < |gs| && gs[j].Cell() == p && Deadly(gs[j].mode)
  }

  /** The heading after a frame's events: that of the last arrow key, if any. */
  function HeadingAfter(events: seq<Event>, h: Pos): (r: Pos)
    ensures r == h || IsUnit(r)
    ensures (forall i :: 0 <= i < |events| ==> !(events[i].KeyDown? && events[i].key != OtherKey)) ==> r == h
  {
    if |events| == 0 then h
    else
      var e := events[|events| - 1];
      if e.KeyDown? && e.key != OtherKey then KeyDir(e.key) else HeadingAfter(events[..|events| - 1], h)
  }

  /** The red, pink and cyan ghosts at their start cells, scattering and heading up. */
  method NewGhosts() returns (gs: seq<Ghost>)
    ensures |gs| == |Names|
    ensures forall i :: 0 <= i < |gs| ==>
      && fresh(gs[i]) && gs[i].name == Names[i] && gs[i].start == StartCell(Names[i])
      && gs[i].Cell() == gs[i].start && gs[i].mode == Scatter && IsUnit(gs[i].Heading())
    ensures forall i, j :: 0 <= i < j < |gs| ==> gs[i] != gs[j]
  {
    var red := new Ghost(13, 11, Vermelho);
    var pink := new Ghost(13, 14, Rosa);
    var cyan := new Ghost(11, 14, Ciano);
    gs := [red, pink, cyan];
  }

  class Game {
    const layout: Grid
    const player: Player
    const ghosts: seq<Ghost>
    var maze: Grid
    /** The global mode clock. */
    var mode: Mode
    var modeTimer: nat
    var moveTimer: nat
    var running: bool
    var gameOver: bool
    var win: bool

    /** The three ghosts, distinct, in their order, each remembering its start cell. */
    ghost predicate Team()
    {
      && |ghosts| == |Names|
      && (forall i :: 0 <= i < |ghosts| ==> ghosts[i].name == Names[i] && ghosts[i].start == StartCell(Names[i]))
      && (forall i, j :: 0 <= i < j < |ghosts| ==> ghosts[i] != ghosts[j])
    }

    predicate PlayerOk()
      reads player`x, player`y, player`dx, player`dy
    {
      OnBoard(player.Cell()) && (player.Heading() == Pos(0, 0) || IsUnit(player.Heading()))
    }

    ghost predicate GhostsOk()
      reads ghosts`x, ghosts`y, ghosts`dx, ghosts`dy
    {
      forall i :: 0 <= i < |ghosts| ==> OnBoard(ghosts[i].Cell()) && IsUnit(ghosts[i].Heading())
    }

    ghost predicate Valid()
      reads this, player, ghosts
    {
      && Shaped(layout) && Shaped(maze) && Team() && PlayerOk() && GhostsOk()
      && ClockOk(mode, modeTimer) && moveTimer < MoveEvery
    }

    /** What a lost life with lives to spare resets: positions, ghost modes and the maze. */
    ghost predicate Restarted()
      reads this`maze, player`x, player`y, player`dx, player`dy, ghosts`x, ghosts`y, ghosts`mode
    {
      && player.Cell() == PlayerHome && player.Heading() == Pos(0, 0)
      && maze == layout
      && forall i :: 0 <= i < |ghosts| ==> ghosts[i].Cell() == ghosts[i].start && ghosts[i].mode == RestartMode(ghosts[i].name)
    }

    constructor (layout0: Grid)
      requires Shaped(layout0)
      ensures Valid()
      ensures layout == layout0 && maze == layout0
      ensures player.Cell() == PlayerHome && player.score == 0 && player.lives == StartLives
      ensures forall i :: 0 <= i < |ghosts| ==> ghosts[i].Cell() == ghosts[i].start && ghosts[i].mode == Scatter
      ensures mode == Scatter && modeTimer == 0 && moveTimer == 0
      ensures running && !gameOver && !win
    {
      layout := layout0;
      maze := layout0;
      player := new Player(13, 22);
      var gs := NewGhosts();
      ghosts := gs;
      mode, modeTimer := Scatter, 0;
      moveTimer := 0;
      running, gameOver, win := true, false, false;
    }

    /** Every ghost but an eaten one becomes vulnerable. */
    method FrightenAll()
      requires Team() && GhostsOk()
      modifies ghosts`mode, ghosts`timer, ghosts`dx, ghosts`dy
      ensures GhostsOk()
      ensures forall i :: 0 <= i < |ghosts| ==>
                ghosts[i].State() == Frighten(old(ghosts[i].State()))
    {
      for k := 0 to |ghosts|
        invariant forall i :: 0 <= i < k ==> ghosts[i].State() == Frighten(old(ghosts[i].State()))
        invariant forall i :: k <= i < |ghosts| ==> ghosts[i].State() == old(ghosts[i].State())
      {
        assert forall i :: 0 <= i < |ghosts| && i != k ==> ghosts[i] != ghosts[k];
        ghosts[k].BecomeVulnerable();
      }
    }

    /**
     * The player's move: one wrapped step along its heading when the cell there is
     * open; a pellet is eaten for 10 points, a power pellet for 50 and it frightens
     * the ghosts.
     */
    method MovePlayer()
      requires Valid()
      modifies this`maze, player`x, player`y, player`score, ghosts`mode, ghosts`timer, ghosts`dx, ghosts`dy
      ensures Valid()
      ensures var n := WrapStep(old(player.Cell()), old(player.Heading()));
              var c := At(old(maze), n);
              && player.Cell() == (if Open(c) then n else old(player.Cell()))
              && maze == (if c == Pellet || c == PowerPellet then Set(old(maze), n, Empty) else old(maze))
              && player.score == old(player.score) + Entities.CellPoints(c)
              && (c == PowerPellet ==> forall i :: 0 <= i < |ghosts| ==>
                    ghosts[i].State() == Frighten(old(ghosts[i].State())))
              && (c != PowerPellet ==> unchanged(ghosts))
      ensures player.score + Entities.Points(maze) == old(player.score + Entities.Points(maze))
    {
      var n := WrapStep(player.Cell(), player.Heading());
      if Open(maze[n.y][n.x]) {
        player.x, player.y := n.x, n.y;
        Eat(n);
      }
    }

    /** What the player finds on the cell it steps onto: a pellet, a power pellet, or nothing to eat. */
    method Eat(n: Pos)
      requires Valid() && OnBoard(n)
      modifies this`maze, player`score, ghosts`mode, ghosts`timer, ghosts`dx, ghosts`dy
      ensures Valid()
      ensures var c := At(old(maze), n);
              && maze == (if c == Pellet || c == PowerPellet then Set(old(maze), n, Empty) else old(maze))
              && player.score == old(player.score) + Entities.CellPoints(c)
              && (c == PowerPellet ==> forall i :: 0 <= i < |ghosts| ==>
                    ghosts[i].State() == Frighten(old(ghosts[i].State())))
              && (c != PowerPellet ==> unchanged(ghosts))
      ensures player.score + Entities.Points(maze) == old(player.score + Entities.Points(maze))
    {
      var c := maze[n.y][n.x];
      if c == Pellet {
        Consume(n);
      } else if c == PowerPellet {
        Consume(n);
        FrightenAll();
      }
    }

    /** A pellet or power pellet at `n` is eaten: its points go to the player and the cell empties. */
    method Consume(n: Pos)
      requires Valid() && OnBoard(n)
      modifies this`maze, player`score
      ensures Valid()
      ensures maze == Set(old(maze), n, Empty)
      ensures player.score == old(player.score) + Entities.CellPoints(At(old(maze), n))
      ensures player.score + Entities.Points(maze) == old(player.score + Entities.Points(maze))
    {
      player.score := player.score + Entities.CellPoints(maze[n.y][n.x]);
      Entities.PointsUpdate(maze, n, Empty);
      maze := Set(maze, n, Empty);
    }

    /** After a lost life with lives to spare: everyone back home and the maze as laid out. */
    method Restart()
      requires Team() && Shaped(layout) && GhostsOk()
      modifies this`maze, player`x, player`y, player`dx, player`dy, ghosts`x, ghosts`y, ghosts`mode
      ensures Restarted() && GhostsOk()
    {
      player.x, player.y := PlayerHome.x, PlayerHome.y;
      player.dx, player.dy := 0, 0;
      for k := 0 to |ghosts|
        invariant player.Cell() == PlayerHome && player.Heading() == Pos(0, 0)
        invariant forall i :: 0 <= i < k ==> ghosts[i].Cell() == ghosts[i].start && ghosts[i].mode == RestartMode(ghosts[i].name)
        invariant forall i :: 0 <= i < |ghosts| ==> ghosts[i].Heading() == old(ghosts[i].Heading())
        invariant forall i :: k <= i < |ghosts| ==> ghosts[i].Cell() == old(ghosts[i].Cell())
      {
        assert forall i :: 0 <= i < |ghosts| && i != k ==> ghosts[i] != ghosts[k];
        ghosts[k].GoHome();
      }
      assert forall i :: 0 <= i < |ghosts| ==> OnBoard(ghosts[i].Cell()) by {
        forall i | 0 <= i < |ghosts| ensures OnBoard(ghosts[i].Cell()) {
          assert ghosts[i].Cell() == StartCell(Names[i]);
        }
      }
      maze := layout;
    }

    /**
     * The collision pass up to the first deadly ghost: each vulnerable ghost on the
     * player's cell is eaten for 200 points; `stop` is the first ghost on the cell
     * that is neither vulnerable nor eaten, or the number of ghosts.
     */
    method Sweep() returns (stop: nat)
      requires Team()
      modifies player`score, ghosts`mode
      ensures stop <= |ghosts|
      ensures forall j :: 0 <= j < stop ==> !(ghosts[j].Cell() == player.Cell() && Deadly(old(ghosts[j].mode)))
      ensures stop < |ghosts| ==> ghosts[stop].Cell() == player.Cell() && Deadly(old(ghosts[stop].mode))
      ensures forall j :: 0 <= j < |ghosts| ==>
                ghosts[j].mode == if j < stop && ghosts[j].Cell() == player.Cell() && old(ghosts[j].mode) == Vulnerable
                                  then Eaten else old(ghosts[j].mode)
      ensures player.score == old(player.score) + GhostPoints * old(Edible(ghosts, player.Cell(), stop))
    {
      stop := 0;
      while stop < |ghosts|
        invariant stop <= |ghosts|
        invariant forall j :: 0 <= j < stop ==> !(ghosts[j].Cell() == player.Cell() && Deadly(old(ghosts[j].mode)))
        invariant forall j :: 0 <= j < |ghosts| ==>
                    ghosts[j].mode == if j < stop && ghosts[j].Cell() == player.Cell() && old(ghosts[j].mode) == Vulnerable
                                      then Eaten else old(ghosts[j].mode)
        invariant player.score == old(player.score) + GhostPoints * old(Edible(ghosts, player.Cell(), stop))
        decreases |ghosts| - stop
      {
        assert forall j :: 0 <= j < |ghosts| && j != stop ==> ghosts[j] != ghosts[stop];
        var g := ghosts[stop];
        if g.Cell() == player.Cell() {
          if g.mode == Vulnerable {
            player.score := player.score + GhostPoints;
            g.mode := Eaten;
          } else if g.mode != Eaten {
            return;
          }
        }
        stop := stop + 1;
      }
    }

    /** A deadly ghost caught the player: a life is lost, then the game ends or restarts. */
    method LoseLife()
      requires Valid()
      modifies player`lives, this`gameOver, this`maze, player`x, player`y, player`dx, player`dy, ghosts`x, ghosts`y, ghosts`mode
      ensures Valid()
      ensures player.lives == old(player.lives) - 1
      ensures player.lives <= 0 ==>
                gameOver && maze == old(maze) && player.Cell() == old(player.Cell()) && unchanged(ghosts)
      ensures player.lives > 0 ==> gameOver == old(gameOver) && Restarted()
    {
      player.lives := player.lives - 1;
      if player.lives <= 0 {
        gameOver := true;
      } else {
        Restart();
      }
    }

    /**
     * The collision check: vulnerable ghosts on the player's cell are eaten in order
     * until one that is neither vulnerable nor eaten costs a life.
     */
    method CheckCollisions()
      requires Valid()
      modifies player`score, player`lives, this`gameOver, this`maze, player`x, player`y, player`dx, player`dy
      modifies ghosts`x, ghosts`y, ghosts`mode
      ensures Valid()
      ensures player.score >= old(player.score)
      ensures player.lives < old(player.lives) <==> old(Caught(ghosts, player.Cell()))
      ensures player.lives == old(player.lives) || player.lives == old(player.lives) - 1
      ensures gameOver <==> old(gameOver) || (player.lives < old(player.lives) && player.lives <= 0)
      ensures player.lives < old(player.lives) && player.lives > 0 ==> Restarted()
      ensures player.lives == old(player.lives) ==>
                && player.Cell() == old(player.Cell()) && maze == old(maze)
                && player.score == old(player.score) + GhostPoints * old(Edible(ghosts, player.Cell(), |ghosts|))
                && forall i :: 0 <= i < |ghosts| ==> ghosts[i].Cell() == old(ghosts[i].Cell())
    {
      var stop := Sweep();
      if stop < |ghosts| {
        LoseLife();
      }
    }

    /** Every ghost takes its update, in order, under the global mode. */
    method UpdateGhosts()
      requires Shaped(maze) && Team() && GhostsOk()
      modifies ghosts`x, ghosts`y, ghosts`dx, ghosts`dy, ghosts`mode, ghosts`timer
      ensures GhostsOk()
      ensures forall i :: 0 <= i < |ghosts| ==> Stepped(old(ghosts[i].State()), ghosts[i].State())
    {
      var p := player.Cell();
      for k := 0 to |ghosts|
        invariant forall i :: 0 <= i < k ==> Stepped(old(ghosts[i].State()), ghosts[i].State())
        invariant forall i :: k <= i < |ghosts| ==> ghosts[i].State() == old(ghosts[i].State())
      {
        assert forall i :: 0 <= i < |ghosts| && i != k ==> ghosts[i] != ghosts[k];
        UpdateGhost(k, ghosts[k], p);
      }
    }

    /** Moves ghost `g`, the `k`-th, alone; the other ghosts keep their state. */
    method UpdateGhost(k: nat, g: Ghost, p: Pos)
      requires Shaped(maze) && Team() && GhostsOk() && k < |ghosts| && g == ghosts[k]
      modifies g`x, g`y, g`dx, g`dy, g`mode, g`timer
      ensures GhostsOk()
      ensures Stepped(old(g.State()), g.State())
      ensures Moved(maze, p, mode, g.name, old(g.State()), g.State())
    {
      g.Update(maze, p, mode);
    }

    /** One tick of the global scatter/chase clock. */
    method TickClock()
      requires ClockOk(mode, modeTimer)
      modifies this`mode, this`modeTimer
      ensures (mode, modeTimer) == Clock(old(mode), old(modeTimer))
    {
      modeTimer := modeTimer + 1;
      if mode == Scatter && modeTimer > ScatterTime {
        mode, modeTimer := Chase, 0;
      } else if mode == Chase && modeTimer > ChaseTime {
        mode, modeTimer := Scatter, 0;
      }
    }

    /** A movement round: the player moves, collisions, every ghost moves, collisions again. */
    method MoveRound()
      requires Valid()
      modifies this`maze, this`gameOver, player`x, player`y, player`dx, player`dy, player`score, player`lives
      modifies ghosts`x, ghosts`y, ghosts`dx, ghosts`dy, ghosts`mode, ghosts`timer
      ensures Valid()
      ensures player.score >= old(player.score)
      ensures old(player.lives) - 2 <= player.lives <= old(player.lives)
      ensures old(gameOver) ==> gameOver
    {
      PlayerPhase();
      GhostPhase();
    }

    /** The player's half of a movement round: its move, then a collision check. */
    method PlayerPhase()
      requires Valid()
      modifies this`maze, this`gameOver, player`x, player`y, player`dx, player`dy, player`score, player`lives
      modifies ghosts`x, ghosts`y, ghosts`dx, ghosts`dy, ghosts`mode, ghosts`timer
      ensures Valid()
      ensures player.score >= old(player.score)
      ensures old(player.lives) - 1 <= player.lives <= old(player.lives)
      ensures old(gameOver) ==> gameOver
      ensures var n := WrapStep(old(player.Cell()), old(player.Heading()));
              var c := At(old(maze), n);
              && player.score >= old(player.score) + Entities.CellPoints(c)
              && (player.lives == old(player.lives) ==>
                    && player.Cell() == (if Open(c) then n else old(player.Cell()))
                    && maze == (if c == Pellet || c == PowerPellet then Set(old(maze), n, Empty) else old(maze)))
      ensures gameOver <==> old(gameOver) || (player.lives < old(player.lives) && player.lives <= 0)
      ensures player.lives < old(player.lives) && player.lives > 0 ==> Restarted()
    {
      ghost var n := WrapStep(player.Cell(), player.Heading());
      ghost var c := At(maze, n);
      ghost var score0 := player.score;
      MovePlayer();
      assert Valid() && player.score == score0 + Entities.CellPoints(c);
      assert gameOver == old(gameOver) && player.lives == old(player.lives);
      ghost var cell1, maze1 := player.Cell(), maze;
      assert cell1 == (if Open(c) then n else old(player.Cell()));
      assert maze1 == (if c == Pellet || c == PowerPellet then Set(old(maze), n, Empty) else old(maze));
      CheckCollisions();
      assert player.lives == old(player.lives) ==> player.Cell() == cell1 && maze == maze1;
    }

    /** The ghosts' half of a movement round: every ghost moves, then a collision check. */
    method GhostPhase()
      requires Valid()
      modifies this`maze, this`gameOver, player`x, player`y, player`dx, player`dy, player`score, player`lives
      modifies ghosts`x, ghosts`y, ghosts`dx, ghosts`dy, ghosts`mode, ghosts`timer
      ensures Valid()
      ensures player.score >= old(player.score)
      ensures old(player.lives) - 1 <= player.lives <= old(player.lives)
      ensures old(gameOver) ==> gameOver
      ensures player.lives == old(player.lives) ==>
                && player.Cell() == old(player.Cell()) && maze == old(maze)
                && forall i :: 0 <= i < |ghosts| ==> ghosts[i].Cell() == WrapStep(old(ghosts[i].Cell()), ghosts[i].Heading())
      ensures gameOver <==> old(gameOver) || (player.lives < old(player.lives) && player.lives <= 0)
      ensures player.lives < old(player.lives) && player.lives > 0 ==> Restarted()
    {
      UpdateGhosts();
      assert Valid();
      assert gameOver == old(gameOver) && player.lives == old(player.lives);
      assert player.Cell() == old(player.Cell()) && maze == old(maze);
      assert forall i :: 0 <= i < |ghosts| ==> ghosts[i].Cell() == WrapStep(old(ghosts[i].Cell()), ghosts[i].Heading());
      CheckCollisions();
    }

    /**
     * One tick of the main loop after the events: while the game is neither lost nor
     * won, the clock ticks, every sixth tick is a movement round, and an empty maze
     * wins; a lost or won game stops the loop.
     */
    method Tick()
      requires Valid()
      modifies this`mode, this`modeTimer, this`moveTimer, this`win, this`running
      modifies this`maze, this`gameOver, player`x, player`y, player`dx, player`dy, player`score, player`lives
      modifies ghosts`x, ghosts`y, ghosts`dx, ghosts`dy, ghosts`mode, ghosts`timer
      ensures Valid()
      ensures player.score >= old(player.score) && player.lives <= old(player.lives)
      ensures old(gameOver || win) ==>
                unchanged(player) && unchanged(ghosts) && maze == old(maze) && win == old(win) && gameOver == old(gameOver)
                && mode == old(mode) && modeTimer == old(modeTimer) && moveTimer == old(moveTimer)
      ensures !old(gameOver || win) ==>
                && (mode, modeTimer) == Clock(old(mode), old(modeTimer))
                && moveTimer == (old(moveTimer) + 1) % MoveEvery
                && (win <==> !HasPellets(maze))
      ensures running == (old(running) && !gameOver && !win)
    {
      if !gameOver && !win {
        Advance();
      }
      if gameOver || win {
        running := false;
      }
    }

    /** The body of a tick of a game still on: the clock, a movement round every sixth tick, the win test. */
    method Advance()
      requires Valid() && !win
      modifies this`mode, this`modeTimer, this`moveTimer, this`win
      modifies this`maze, this`gameOver, player`x, player`y, player`dx, player`dy, player`score, player`lives
      modifies ghosts`x, ghosts`y, ghosts`dx, ghosts`dy, ghosts`mode, ghosts`timer
      ensures Valid()
      ensures player.score >= old(player.score) && player.lives <= old(player.lives)
      ensures (mode, modeTimer) == Clock(old(mode), old(modeTimer))
      ensures moveTimer == (old(moveTimer) + 1) % MoveEvery
      ensures win <==> !HasPellets(maze)
      ensures old(gameOver) ==> gameOver
    {
      TickClock();
      CountMove();
      var left := AnyPellets(maze);
      if !left {
        win := true;
      }
    }

    /** The move timer counts the ticks, and every sixth one is a movement round. */
    method CountMove()
      requires Valid()
      modifies this`moveTimer
      modifies this`maze, this`gameOver, player`x, player`y, player`dx, player`dy, player`score, player`lives
      modifies ghosts`x, ghosts`y, ghosts`dx, ghosts`dy, ghosts`mode, ghosts`timer
      ensures Valid()
      ensures player.score >= old(player.score) && player.lives <= old(player.lives)
      ensures moveTimer == (old(moveTimer) + 1) % MoveEvery
      ensures old(gameOver) ==> gameOver
    {
      moveTimer := moveTimer + 1;
      if moveTimer >= MoveEvery {
        moveTimer := 0;
        MoveRound();
      }
    }

    /** The frame's events: a quit stops the loop, an arrow key sets the player's heading. */
    method HandleEvents(events: seq<Event>)
      requires PlayerOk()
      modifies this`running, player`dx, player`dy
      ensures PlayerOk()
      ensures player.Heading() == HeadingAfter(events, old(player.Heading()))
      ensures running == (old(running) && Quit !in events)
    {
      for k := 0 to |events|
        invariant PlayerOk()
        invariant player.Heading() == HeadingAfter(events[..k], old(player.Heading()))
        invariant running == (old(running) && Quit !in events[..k])
      {
        assert events[..k + 1][..k] == events[..k];
        match events[k]
        case Quit => running := false;
        case KeyDown(key) => player.Press(key);
        case OtherEvent =>
      }
      assert events[..|events|] == events;
    }

    /** One pass of the main loop. */
    method Frame(events: seq<Event>)
      requires Valid()
      modifies this`mode, this`modeTimer, this`moveTimer, this`win, this`running
      modifies this`maze, this`gameOver, player`x, player`y, player`dx, player`dy, player`score, player`lives
      modifies ghosts`x, ghosts`y, ghosts`dx, ghosts`dy, ghosts`mode, ghosts`timer
      ensures Valid()
      ensures player.score >= old(player.score) && player.lives <= old(player.lives)
      ensures running == (old(running) && Quit !in events && !gameOver && !win)
    {
      HandleEvents(events);
      Tick();
    }
  }
}
