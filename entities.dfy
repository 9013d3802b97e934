/**
 * The moving entities of the game (`entities.py`): the player, who eats pellets
 * and can enter super mode, and the ghosts, who chase a per-kind target through
 * the maze. Drawing, animation phases and the blood effects are not modelled.
 */
module Entities {
  import opened Grid
  import opened Config
  import opened Random
  import opened Wrappers
  import opened Pathfinding

  // ----- the bounds test -----

  /**
   * Inside the configured bounds `Cols` x `Rows`, the cell can be read from the grid.
   * The bounds test reads `maze[ny][nx]` for any cell inside them, which fails when
   * the grid is narrower than the bounds.
   */
  predicate Indexable(maze: Grid, n: Pos)
  {
    0 <= n.x < Cols && 0 <= n.y < Rows ==> InGrid(maze, n)
  }

  /** `0 <= nx < COLS and 0 <= ny < ROWS and maze[ny][nx] != 1`. */
  predicate Passable(maze: Grid, n: Pos)
    requires Indexable(maze, n)
  {
    0 <= n.x < Cols && 0 <= n.y < Rows && At(maze, n) != Wall
  }

  lemma PassableWalkable(maze: Grid, n: Pos)
    requires Indexable(maze, n) && Passable(maze, n)
    ensures Walkable(maze, n)
  {
  }

  /** The grid lies within the configured bounds and its outer ring is wall. */
  ghost predicate Bordered(maze: Grid)
  {
    && Rectangular(maze) && |maze| <= Rows && |maze[0]| <= Cols
    && forall p :: InGrid(maze, p) && (p.x == 0 || p.y == 0 || p.y == |maze| - 1 || p.x == |maze[0]| - 1) ==> At(maze, p) == Wall
  }

  /** On a bordered grid, a unit step from a walkable cell stays in the grid, and the bounds test agrees with walkability there. */
  lemma StepIndexable(maze: Grid, p: Pos, d: Pos)
    requires Bordered(maze) && Walkable(maze, p) && IsUnit(d)
    ensures InGrid(maze, p.Plus(d)) && Indexable(maze, p.Plus(d))
    ensures Passable(maze, p.Plus(d)) <==> Walkable(maze, p.Plus(d))
  {
    assert p.x != 0 && p.y != 0 && p.y != |maze| - 1 && p.x != |maze[0]| - 1;
  }

  // ----- points left on the board -----

  /** What eating a cell is worth: 10 for a pellet, 50 for a power pellet. */
  function CellPoints(v: int): nat
  {
    if v == Pellet then 10 else if v == PowerPellet then 50 else 0
  }

  function RowPoints(row: seq<int>): nat
  {
    if |row| == 0 then 0 else CellPoints(row[0]) + RowPoints(row[1..])
  }

  /** The points still on the board. */
  function Points(g: Grid): nat
  {
    if |g| == 0 then 0 else RowPoints(g[0]) + Points(g[1..])
  }

  lemma {:induction false} RowPointsUpdate(row: seq<int>, i: nat, v: int)
    requires i < |row|
    ensures RowPoints(row[i := v]) == RowPoints(row) - CellPoints(row[i]) + CellPoints(v)
    decreases i
  {
    if i > 0 {
      RowPointsUpdate(row[1..], i - 1, v);
      assert row[i := v][1..] == row[1..][i - 1 := v];
    }
  }

  /** Writing `v` into a cell changes the points on the board by the difference of the two cells' worth. */
  lemma {:induction false} PointsUpdate(g: Grid, p: Pos, v: int)
    requires InGrid(g, p)
    ensures Points(Set(g, p, v)) == Points(g) - CellPoints(At(g, p)) + CellPoints(v)
    decreases p.y
  {
    var h := Set(g, p, v);
    if p.y == 0 {
      RowPointsUpdate(g[0], p.x, v);
      assert h[1..] == g[1..];
    } else {
      PointsUpdate(g[1..], Pos(p.x, p.y - 1), v);
      assert h[1..] == Set(g[1..], Pos(p.x, p.y - 1), v);
    }
  }

  lemma {:induction false} RowPointsZero(row: seq<int>)
    ensures RowPoints(row) == 0 <==> forall i :: 0 <= i < |row| ==> row[i] != Pellet && row[i] != PowerPellet
  {
    if |row| > 0 {
      RowPointsZero(row[1..]);
      assert forall i :: 1 <= i < |row| ==> row[i] == row[1..][i - 1];
    }
  }

  /** No points are left exactly when no pellet or power pellet is left. */
  lemma {:induction false} PointsZero(g: Grid)
    ensures Points(g) == 0 <==> !HasPellets(g)
  {
    if |g| > 0 {
      PointsZero(g[1..]);
      RowPointsZero(g[0]);
      if HasPellets(g) {
        var y, x :| 0 <= y < |g| && 0 <= x < |g[y]| && (g[y][x] == Pellet || g[y][x] == PowerPellet);
        if y > 0 {
          assert g[1..][y - 1][x] == g[y][x];
        }
      }
      if HasPellets(g[1..]) {
        var y, x :| 0 <= y < |g[1..]| && 0 <= x < |g[1..][y]| && (g[1..][y][x] == Pellet || g[1..][y][x] == PowerPellet);
        assert g[y + 1][x] == g[1..][y][x];
      }
    }
  }

  // ----- the countdowns -----

  /** One non-dying `update` of the super-mode timer. */
  function SuperTick(t: int): int
  {
    if t > 0 then t - 1 else t
  }

  function SuperTicks(t: int, k: nat): int
    decreases k
  {
    if k == 0 then t else SuperTicks(SuperTick(t), k - 1)
  }

  /** The timer counts down by one per tick and stops at 0: super mode lasts exactly as many ticks as it was set to. */
  lemma {:induction false} SuperCountdown(t: nat, k: nat)
    ensures SuperTicks(t, k) == if k <= t then t - k else 0
  {
    if k > 0 {
      SuperCountdown(SuperTick(t), k - 1);
    }
  }

  /** One call of `update_death_animation` on `(is_dying, death_animation_timer)`. */
  function DeathTick(s: (bool, int)): (bool, int)
  {
    if !s.0 then s else (s.1 - 1 > 0, s.1 - 1)
  }

  function DeathTicks(s: (bool, int), k: nat): (bool, int)
    decreases k
  {
    if k == 0 then s else DeathTicks(DeathTick(s), k - 1)
  }

  /** Started with timer `t >= 1`, the player is still dying after `k < t` calls and stops dying on call `t`. */
  lemma {:induction false} DeathCountdown(t: int, k: nat)
    requires t >= 1
    ensures DeathTicks((true, t), k) == if k < t then (true, t - k) else (false, 0)
  {
    if k > 0 {
      if t == 1 {
        StillDead(k - 1);
      } else {
        DeathCountdown(t - 1, k - 1);
      }
    }
  }

  lemma {:induction false} StillDead(k: nat)
    ensures DeathTicks((false, 0), k) == (false, 0)
  {
    if k > 0 {
      StillDead(k - 1);
    }
  }

  // ----- the player -----

  class Player {
    var x: int
    var y: int
    var dx: int
    var dy: int
    var score: int
    var superTimer: int
    var isDying: bool
    var deathTimer: int

    function Cell(): Pos
      reads this`x, this`y
    {
      Pos(x, y)
    }

    function Ahead(): Pos
      reads this`x, this`y, this`dx, this`dy
    {
      Pos(x + dx, y + dy)
    }

    constructor (x0: int, y0: int)
      ensures x == x0 && y == y0 && dx == 0 && dy == 0
      ensures score == 0 && superTimer == 0 && !isDying && deathTimer == 0
    {
      x, y := x0, y0;
      dx, dy := 0, 0;
      score, superTimer := 0, 0;
      isDying, deathTimer := false, 0;
    }

    /** Takes the new direction only when the cell it leads to is passable. */
    method TrySetDirection(ndx: int, ndy: int, maze: Grid)
      requires Indexable(maze, Pos(x + ndx, y + ndy))
      modifies this`dx, this`dy
      ensures if Passable(maze, Pos(x + ndx, y + ndy)) then dx == ndx && dy == ndy else dx == old(dx) && dy == old(dy)
    {
      var n := Pos(x + ndx, y + ndy);
      if 0 <= n.x < Cols && 0 <= n.y < Rows && maze[n.y][n.x] != Wall {
        dx, dy := ndx, ndy;
      }
    }

    /**
     * One step in the current direction. Entering a pellet clears it and scores 10;
     * entering a power pellet clears it, scores 50 and starts super mode, which is
     * reported by returning true (the source's "SUPER_MODE_START"). The grid is
     * returned rather than changed in place.
     */
    method Move(maze: Grid) returns (maze': Grid, superStart: bool)
      requires Indexable(maze, Ahead())
      modifies this`x, this`y, this`score, this`superTimer
      ensures var n := old(Ahead());
        if Passable(maze, n) then
          && Cell() == n
          && maze' == (if At(maze, n) == Pellet || At(maze, n) == PowerPellet then Set(maze, n, Empty) else maze)
          && score == old(score) + CellPoints(At(maze, n))
          && superStart == (At(maze, n) == PowerPellet)
          && superTimer == (if superStart then SuperModeDuration else old(superTimer))
        else
          Cell() == old(Cell()) && maze' == maze && score == old(score) && !superStart && superTimer == old(superTimer)
      ensures score + Points(maze') == old(score) + Points(maze)
    {
      maze', superStart := maze, false;
      var n := Pos(x + dx, y + dy);
      if 0 <= n.x < Cols && 0 <= n.y < Rows && maze[n.y][n.x] != Wall {
        x, y := n.x, n.y;
        var cell := maze[n.y][n.x];
        if cell == Pellet {
          PointsUpdate(maze, n, Empty);
          maze' := Set(maze, n, Empty);
          score := score + 10;
        } else if cell == PowerPellet {
          PointsUpdate(maze, n, Empty);
          maze' := Set(maze, n, Empty);
          score := score + 50;
          superStart := ActivateSuperMode();
        }
      }
    }

    method ActivateSuperMode() returns (superStart: bool)
      modifies this`superTimer
      ensures superTimer == SuperModeDuration && superStart
    {
      superTimer := SuperModeDuration;
      return true;
    }

    /** The timer parts of `update`: the death countdown while dying, else one tick of super mode. */
    method Update()
      modifies this`superTimer, this`isDying, this`deathTimer
      ensures old(isDying) ==> (isDying, deathTimer) == DeathTick((old(isDying), old(deathTimer))) && superTimer == old(superTimer)
      ensures !old(isDying) ==> superTimer == SuperTick(old(superTimer)) && !isDying && deathTimer == old(deathTimer)
    {
      if isDying {
        UpdateDeathAnimation();
      } else if superTimer > 0 {
        superTimer := superTimer - 1;
      }
    }

    /** Starts the 60-tick death countdown; super mode is left running. */
    method StartDying()
      modifies this`isDying, this`deathTimer
      ensures isDying && deathTimer == 60
    {
      isDying := true;
      deathTimer := 60;
    }

    method UpdateDeathAnimation()
      modifies this`isDying, this`deathTimer
      ensures (isDying, deathTimer) == DeathTick((old(isDying), old(deathTimer)))
    {
      if !isDying {
        return;
      }
      deathTimer := deathTimer - 1;
      if deathTimer <= 0 {
        isDying := false;
      }
    }
  }

  // ----- the ghosts -----

  datatype GhostState = House | Chase | Vulnerable | Eaten

  datatype GhostKind = Blinky | Pinky | Inky | Clyde

  /** Where a ghost aims: a fixed cell, or the walkable cell nearest to a point. */
  datatype Target = Exact(cell: Pos) | NearestTo(point: Pos)

  /** The corners a vulnerable ghost flees to, in the order `max` sees them. */
  const Corners: seq<Pos> := [Pos(1, 1), Pos(Cols - 2, 1), Pos(1, Rows - 2), Pos(Cols - 2, Rows - 2)]

  /** `max(cs, key=distance to p)`: the index of the first element at the largest Manhattan distance from `p`. */
  function Farthest(cs: seq<Pos>, p: Pos): (r: nat)
    requires |cs| > 0
    ensures r < |cs|
    ensures forall i :: 0 <= i < |cs| ==> Manhattan(cs[i], p) <= Manhattan(cs[r], p)
    ensures forall i :: 0 <= i < r ==> Manhattan(cs[i], p) < Manhattan(cs[r], p)
  {
    if |cs| == 1 then 0
    else
      var best := Farthest(cs[..|cs| - 1], p);
      if Manhattan(cs[|cs| - 1], p) > Manhattan(cs[best], p) then |cs| - 1 else best
  }

  /** A vulnerable ghost keeps its state until the timer, counted down first, reaches 0. */
  function AfterTimer(state: GhostState, vulTimer: int): GhostState
  {
    if state == Vulnerable && vulTimer - 1 <= 0 then Chase else state
  }

  /**
   * `_get_target_tile`: an eaten ghost heads home, a vulnerable one to the corner
   * farthest from the player; otherwise the kind decides, and every other target
   * is looked up as the walkable cell nearest to a point.
   */
  function TargetTile(state: GhostState, kind: GhostKind, self: Pos, spawn: Pos, player: Pos, dir: Pos, blinky: Option<Pos>): (t: Target)
    ensures state == Vulnerable ==>
      && t.Exact? && t.cell in Corners
      && forall c :: c in Corners ==> Manhattan(c, player) <= Manhattan(t.cell, player)
    ensures state == Eaten ==> t == Exact(spawn)
    ensures state != Eaten && state != Vulnerable && kind == Clyde ==>
      (t.Exact? <==> Manhattan(self, player) <= 8)
  {
    if state == Eaten then Exact(spawn)
    else if state == Vulnerable then Exact(Corners[Farthest(Corners, player)])
    else match kind
      case Blinky => NearestTo(player)
      case Pinky => NearestTo(Pos(player.x + 4 * dir.x, player.y + 4 * dir.y))
      case Inky =>
        if blinky.Some? then NearestTo(Pos(player.x + (player.x - blinky.value.x), player.y + (player.y - blinky.value.y)))
        else NearestTo(player)
      case Clyde => if Manhattan(self, player) > 8 then NearestTo(player) else Exact(Pos(1, Rows - 2))
  }

  /**
   * `t` is where a nearest-cell lookup from point `p` can land: `p` itself when it is
   * walkable, and otherwise a walkable cell on or below `p`'s row, or the grid's centre.
   */
  ghost predicate Near(maze: Grid, p: Pos, t: Pos)
  {
    && (Walkable(maze, p) ==> t == p)
    && (|maze| > 0 ==> t == Pos(|maze[0]| / 2, |maze| / 2) || (Walkable(maze, t) && t.y >= p.y))
  }

  /**
   * `t` is what the target choice resolves to: the cell itself, or, for a nearest-cell
   * lookup, a cell `Near` the point.
   */
  ghost predicate Aims(maze: Grid, choice: Target, t: Pos)
  {
    match choice
    case Exact(c) => t == c
    case NearestTo(p) => Near(maze, p, t)
  }

  /**
   * Where a chasing (or housed) ghost's resolved target `t` lies, by kind: Blinky's
   * lands on the player's cell, Pinky's on the cell four ahead of the player along
   * its heading, Inky's on the reflection of Blinky through the player (the player's
   * cell without a Blinky), and Clyde's on the player's cell from afar and on the
   * lower-left corner up close; each "lands" in the sense of `Near`.
   */
  lemma ChaseTargets(maze: Grid, state: GhostState, kind: GhostKind, self: Pos, spawn: Pos, player: Pos, dir: Pos, blinky: Option<Pos>, t: Pos)
    requires state == House || state == Chase
    requires Aims(maze, TargetTile(state, kind, self, spawn, player, dir, blinky), t)
    ensures kind == Blinky ==> Near(maze, player, t)
    ensures kind == Pinky ==> Near(maze, Pos(player.x + 4 * dir.x, player.y + 4 * dir.y), t)
    ensures kind == Inky && blinky.Some? ==>
      Near(maze, Pos(2 * player.x - blinky.value.x, 2 * player.y - blinky.value.y), t)
    ensures kind == Inky && blinky.None? ==> Near(maze, player, t)
    ensures kind == Clyde && Manhattan(self, player) > 8 ==> Near(maze, player, t)
    ensures kind == Clyde && Manhattan(self, player) <= 8 ==> t == Pos(1, Rows - 2)
  {
    if kind == Inky && blinky.Some? {
      var b := blinky.value;
      assert Pos(player.x + (player.x - b.x), player.y + (player.y - b.y)) == Pos(2 * player.x - b.x, 2 * player.y - b.y);
    }
  }

  /** Resolves a target choice to a cell. */
  method Resolve(maze: Grid, choice: Target) returns (t: Pos)
    requires Rectangular(maze)
    ensures Aims(maze, choice, t)
  {
    match choice
    case Exact(c) =>
      t := c;
    case NearestTo(p) =>
      t := NearestWalkable(maze, p.x, p.y);
  }

  class Ghost {
    var x: int
    var y: int
    const spawn: Pos
    const kind: GhostKind
    var state: GhostState
    var vulTimer: int

    function Cell(): Pos
      reads this`x, this`y
    {
      Pos(x, y)
    }

    constructor (x0: int, y0: int, kind0: GhostKind)
      ensures x == x0 && y == y0 && spawn == Pos(x0, y0) && kind == kind0
      ensures state == House && vulTimer == 0
    {
      x, y := x0, y0;
      spawn := Pos(x0, y0);
      kind := kind0;
      state := House;
      vulTimer := 0;
    }

    /**
     * `update`: a housed ghost does nothing. Otherwise the vulnerability timer runs,
     * the ghost picks its target and moves by the step `ChooseStep` gives; an eaten
     * ghost back on its spawn cell chases again. `target` is the cell it aimed at.
     */
    method Update(maze: Grid, player: Player, ghosts: seq<Ghost>, blinky: Option<Ghost>, rng: Rng)
      returns (rng': Rng, ghost target: Pos, ghost step: Pos)
      requires Rectangular(maze)
      requires forall d :: IsUnit(d) ==> Indexable(maze, Cell().Plus(d))
      modifies this
      ensures Cell() == old(Cell()).Plus(step)
      ensures old(state) == House ==> step == Pos(0, 0) && state == House && vulTimer == old(vulTimer) && rng' == rng
      ensures old(state) != House ==>
        var s := AfterTimer(old(state), old(vulTimer));
        && vulTimer == (if old(state) == Vulnerable then old(vulTimer) - 1 else old(vulTimer))
        && state == (if s == Eaten && Cell() == spawn then Chase else s)
        && Aims(maze, TargetTile(s, kind, old(Cell()), spawn, player.Cell(), Pos(player.dx, player.dy), old(BlinkyCell(blinky))), target)
      ensures step == Pos(0, 0) || (IsUnit(step) && Walkable(maze, Cell()) && old(!Blocked(ghosts, this, Cell().Plus(step))))
      ensures old(state) != House && step == Pos(0, 0) ==>
        old(forall d :: IsUnit(d) ==> !Free(maze, ghosts, this, Cell().Plus(d)))
      ensures old(state) != House && old(Cell()) != target && Reachable(maze, old(Cell()), target) && old(NoneBlocked(ghosts, this, Cell())) ==>
        exists n: nat :: Dist(maze, old(Cell()), target, n + 1) && Dist(maze, Cell(), target, n)
    {
      rng', target, step := rng, Cell(), Pos(0, 0);
      if state == House {
        return;
      }
      // the target is chosen with the state the timer leaves, before anything moves
      var choice := TargetTile(AfterTimer(state, vulTimer), kind, Cell(), spawn, player.Cell(), Pos(player.dx, player.dy), BlinkyCell(blinky));
      var t := Resolve(maze, choice);
      target := t;
      var move;
      move, rng' := ChooseStep(maze, ghosts, t, rng);
      step := move;
      if state == Vulnerable {
        vulTimer := vulTimer - 1;
        if vulTimer <= 0 {
          state := Chase;
        }
      }
      x, y := x + move.x, y + move.y;
      if state == Eaten && Cell() == spawn {
        state := Chase;
      }
    }

    /**
     * The move of one update: the first step of a shortest path to `t`, unless there
     * is none or another non-eaten ghost stands on it; then the first free cell among
     * the four directions in sampled order, or no move at all.
     */
    method ChooseStep(maze: Grid, ghosts: seq<Ghost>, t: Pos, rng: Rng) returns (step: Pos, rng': Rng)
      requires Rectangular(maze)
      requires forall d :: IsUnit(d) ==> Indexable(maze, Cell().Plus(d))
      ensures step == Pos(0, 0) || (IsUnit(step) && Walkable(maze, Cell().Plus(step)) && !Blocked(ghosts, this, Cell().Plus(step)))
      ensures step == Pos(0, 0) ==> forall d :: IsUnit(d) ==> !Free(maze, ghosts, this, Cell().Plus(d))
      ensures Cell() != t && Reachable(maze, Cell(), t) && NoneBlocked(ghosts, this, Cell()) ==>
        exists n: nat :: Dist(maze, Cell(), t, n + 1) && Dist(maze, Cell().Plus(step), t, n)
    {
      var ideal := BfsNextStep(Cell(), t, maze);
      if ideal == Pos(0, 0) || Blocked(ghosts, this, Cell().Plus(ideal)) {
        step, rng' := Fallback(maze, ghosts, rng);
      } else {
        step, rng' := ideal, rng;
      }
    }

    /** The fallback move: the first free cell among the four directions in sampled order, or none. */
    method Fallback(maze: Grid, ghosts: seq<Ghost>, rng: Rng) returns (step: Pos, rng': Rng)
      requires forall d :: IsUnit(d) ==> Indexable(maze, Cell().Plus(d))
      ensures step == Pos(0, 0) || (IsUnit(step) && Walkable(maze, Cell().Plus(step)) && !Blocked(ghosts, this, Cell().Plus(step)))
      ensures step == Pos(0, 0) ==> forall d :: IsUnit(d) ==> !Free(maze, ghosts, this, Cell().Plus(d))
      ensures rng' == Sample(UnitSteps, rng).1
    {
      var sampled := Sample(UnitSteps, rng);
      rng' := sampled.1;
      UnitStepsShuffled(sampled.0);
      var moves := FreeMoves(maze, ghosts, sampled.0);
      if |moves| > 0 {
        step := moves[0];
        assert IsUnit(step) && step != Pos(0, 0) by { assert step in sampled.0; }
        PassableWalkable(maze, Cell().Plus(step));
      } else {
        step := Pos(0, 0);
        forall d | IsUnit(d)
          ensures !Free(maze, ghosts, this, Cell().Plus(d))
        {
          assert d in sampled.0;
        }
      }
    }

    /** The loop building `moves`: the directions, in the given order, that lead to a free cell. */
    method FreeMoves(maze: Grid, ghosts: seq<Ghost>, ds: seq<Pos>) returns (moves: seq<Pos>)
      requires forall d :: d in ds ==> Indexable(maze, Cell().Plus(d))
      ensures forall m :: m in moves ==> m in ds && Free(maze, ghosts, this, Cell().Plus(m))
      ensures forall d :: d in ds && Free(maze, ghosts, this, Cell().Plus(d)) ==> d in moves
      ensures |moves| > 0 ==> exists k :: 0 <= k < |ds| && moves[0] == ds[k] && forall j :: 0 <= j < k ==> !Free(maze, ghosts, this, Cell().Plus(ds[j]))
    {
      moves := [];
      for i := 0 to |ds|
        invariant forall m :: m in moves ==> m in ds && Free(maze, ghosts, this, Cell().Plus(m))
        invariant forall j :: 0 <= j < i && Free(maze, ghosts, this, Cell().Plus(ds[j])) ==> ds[j] in moves
        invariant |moves| > 0 ==> exists k :: 0 <= k < i && moves[0] == ds[k] && forall j :: 0 <= j < k ==> !Free(maze, ghosts, this, Cell().Plus(ds[j]))
        invariant |moves| == 0 ==> forall j :: 0 <= j < i ==> !Free(maze, ghosts, this, Cell().Plus(ds[j]))
      {
        var n := Cell().Plus(ds[i]);
        if 0 <= n.x < Cols && 0 <= n.y < Rows && maze[n.y][n.x] != Wall && !Blocked(ghosts, this, n) {
          moves := moves + [ds[i]];
        }
      }
    }
  }

  function BlinkyCell(blinky: Option<Ghost>): Option<Pos>
    reads if blinky.Some? then {blinky.value} else {}
  {
    if blinky.Some? then Some(blinky.value.Cell()) else None
  }

  /** Another ghost, not eaten, stands on `p`. */
  predicate Blocked(ghosts: seq<Ghost>, self: Ghost, p: Pos)
    reads ghosts
  {
    exists i :: 0 <= i < |ghosts| && ghosts[i] != self && ghosts[i].state != Eaten && ghosts[i].Cell() == p
  }

  /** No neighbour of `p` is blocked by another ghost. */
  ghost predicate NoneBlocked(ghosts: seq<Ghost>, self: Ghost, p: Pos)
    reads ghosts
  {
    forall d :: IsUnit(d) ==> !Blocked(ghosts, self, p.Plus(d))
  }

  /** The fallback's test: passable and not blocked. */
  predicate Free(maze: Grid, ghosts: seq<Ghost>, self: Ghost, p: Pos)
    requires Indexable(maze, p)
    reads ghosts
  {
    Passable(maze, p) && !Blocked(ghosts, self, p)
  }
}
