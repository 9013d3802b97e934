/**
 * The maze grid shared by the generator, the path finders and the entities:
 * a list of rows of cell codes, indexed `maze[y][x]`, and walks over it.
 */
module Grid {
  /** Cell codes. */
  const Empty: int := 0
  const Wall: int := 1
  const Pellet: int := 2
  const PowerPellet: int := 3
  const HouseCentre: int := 4

  type Grid = seq<seq<int>>

  /** A cell position `(x, y)`: column, then row. */
  datatype Pos = Pos(x: int, y: int)
  {
    function Plus(d: Pos): Pos { Pos(x + d.x, y + d.y) }
  }

  /** The four unit moves. */
  predicate IsUnit(d: Pos)
  {
    d == Pos(1, 0) || d == Pos(-1, 0) || d == Pos(0, 1) || d == Pos(0, -1)
  }

  /** The four unit moves in the order the generator's dead-end pass and the ghosts' fallback list them. */
  const UnitSteps: seq<Pos> := [Pos(0, 1), Pos(0, -1), Pos(1, 0), Pos(-1, 0)]

  /** Any reordering of `UnitSteps` holds exactly the unit moves. */
  lemma UnitStepsShuffled(ds: seq<Pos>)
    requires multiset(ds) == multiset(UnitSteps)
    ensures forall d :: d in ds <==> IsUnit(d)
  {
    forall d
      ensures d in ds <==> IsUnit(d)
    {
      assert d in ds <==> d in multiset(ds);
      assert d in UnitSteps <==> d in multiset(UnitSteps);
    }
  }

  predicate Adjacent(a: Pos, b: Pos)
  {
    IsUnit(Pos(b.x - a.x, b.y - a.y))
  }

  function Manhattan(a: Pos, b: Pos): nat
  {
    (if a.x >= b.x then a.x - b.x else b.x - a.x) + (if a.y >= b.y then a.y - b.y else b.y - a.y)
  }

  /** Every row has the length of the first (and there is a first). */
  predicate Rectangular(g: Grid)
  {
    |g| > 0 && forall y :: 0 <= y < |g| ==> |g[y]| == |g[0]|
  }

  predicate InGrid(g: Grid, p: Pos)
  {
    0 <= p.y < |g| && 0 <= p.x < |g[p.y]|
  }

  /** `maze[p.y][p.x]`. */
  function At(g: Grid, p: Pos): int
    requires InGrid(g, p)
  {
    g[p.y][p.x]
  }

  /** Any cell that is not a wall can be walked on. */
  predicate Walkable(g: Grid, p: Pos)
  {
    InGrid(g, p) && At(g, p) != Wall
  }

  /** `maze[p.y][p.x] = v`. */
  function Set(g: Grid, p: Pos, v: int): (r: Grid)
    requires InGrid(g, p)
    ensures |r| == |g| && forall y :: 0 <= y < |g| ==> |r[y]| == |g[y]|
    ensures At(r, p) == v
    ensures forall q {:trigger At(r, q)} :: InGrid(g, q) && q != p ==> At(r, q) == At(g, q)
  {
    g[p.y := g[p.y][p.x := v]]
  }

  /** True while any pellet (2) or power pellet (3) is left. */
  predicate HasPellets(g: Grid)
  {
    exists y, x :: 0 <= y < |g| && 0 <= x < |g[y]| && (g[y][x] == Pellet || g[y][x] == PowerPellet)
  }

  /** `any(2 in row or 3 in row for row in maze)`. */
  method AnyPellets(maze: Grid) returns (b: bool)
    ensures b == HasPellets(maze)
  {
    for y := 0 to |maze|
      invariant forall y', x :: 0 <= y' < y && 0 <= x < |maze[y']| ==> maze[y'][x] != Pellet && maze[y'][x] != PowerPellet
    {
      if Pellet in maze[y] || PowerPellet in maze[y] {
        var x :| 0 <= x < |maze[y]| && (maze[y][x] == Pellet || maze[y][x] == PowerPellet);
        return true;
      }
    }
    return false;
  }

  /** The set of all cells of the grid. */
  function AllCells(g: Grid): (cells: set<Pos>)
    ensures forall p :: p in cells <==> InGrid(g, p)
  {
    set y, x | 0 <= y < |g| && 0 <= x < |g[y]| :: Pos(x, y)
  }

  // ----- walks -----

  /** One move onto a walkable neighbouring cell. */
  predicate Step(g: Grid, a: Pos, b: Pos)
  {
    Adjacent(a, b) && Walkable(g, b)
  }

  /** `b` can be reached from `a` in exactly `n` steps. */
  ghost predicate ReachIn(g: Grid, a: Pos, b: Pos, n: nat)
    decreases n
  {
    if n == 0 then a == b else exists c :: Step(g, c, b) && ReachIn(g, a, c, n - 1)
  }

  ghost predicate Reachable(g: Grid, a: Pos, b: Pos)
  {
    exists n: nat :: ReachIn(g, a, b, n)
  }

  /** `n` is the length of a shortest walk from `a` to `b`. */
  ghost predicate Dist(g: Grid, a: Pos, b: Pos, n: nat)
  {
    ReachIn(g, a, b, n) && forall k: nat :: k < n ==> !ReachIn(g, a, b, k)
  }

  /** Every two walkable cells are connected. */
  ghost predicate Connected(g: Grid)
  {
    forall a, b :: Walkable(g, a) && Walkable(g, b) ==> Reachable(g, a, b)
  }

  lemma ReachExtend(g: Grid, a: Pos, b: Pos, n: nat, c: Pos)
    requires ReachIn(g, a, b, n) && Step(g, b, c)
    ensures ReachIn(g, a, c, n + 1)
  {
  }

  lemma {:induction false} ReachPrepend(g: Grid, a: Pos, b: Pos, c: Pos, n: nat)
    requires Step(g, a, b) && ReachIn(g, b, c, n)
    ensures ReachIn(g, a, c, n + 1)
    decreases n
  {
    if n > 0 {
      var m :| Step(g, m, c) && ReachIn(g, b, m, n - 1);
      ReachPrepend(g, a, b, m, n - 1);
      ReachExtend(g, a, m, n, c);
    }
  }

  lemma {:induction false} ReachConcat(g: Grid, a: Pos, b: Pos, c: Pos, m: nat, n: nat)
    requires ReachIn(g, a, b, m) && ReachIn(g, b, c, n)
    ensures ReachIn(g, a, c, m + n)
    decreases n
  {
    if n > 0 {
      var p :| Step(g, p, c) && ReachIn(g, b, p, n - 1);
      ReachConcat(g, a, b, p, m, n - 1);
      ReachExtend(g, a, p, m + n - 1, c);
    }
  }

  /** Opening cells never breaks a walk. */
  lemma {:induction false} ReachMonotone(g: Grid, h: Grid, a: Pos, b: Pos, n: nat)
    requires forall p :: Walkable(g, p) ==> Walkable(h, p)
    requires ReachIn(g, a, b, n)
    ensures ReachIn(h, a, b, n)
    decreases n
  {
    if n > 0 {
      var p :| Step(g, p, b) && ReachIn(g, a, p, n - 1);
      ReachMonotone(g, h, a, p, n - 1);
      ReachExtend(h, a, p, n - 1, b);
    }
  }

  /** A walk that starts on a walkable cell can be walked backwards. */
  lemma {:induction false} ReachReverse(g: Grid, a: Pos, b: Pos, n: nat)
    requires Walkable(g, a) && ReachIn(g, a, b, n)
    ensures ReachIn(g, b, a, n)
    decreases n
  {
    if n > 0 {
      var p :| Step(g, p, b) && ReachIn(g, a, p, n - 1);
      ReachReverse(g, a, p, n - 1);
      assert Walkable(g, p) by {
        if n - 1 > 0 {
          var p' :| Step(g, p', p) && ReachIn(g, a, p', n - 2);
        }
      }
      assert Step(g, b, p);
      ReachPrepend(g, b, p, a, n - 1);
    }
  }

  /** A set that holds `a` and is closed under steps holds everything reachable from `a`. */
  lemma {:induction false} ClosedHoldsReachable(g: Grid, s: set<Pos>, a: Pos, b: Pos, n: nat)
    requires a in s
    requires forall v, w :: v in s && Step(g, v, w) ==> w in s
    requires ReachIn(g, a, b, n)
    ensures b in s
    decreases n
  {
    if n > 0 {
      var p :| Step(g, p, b) && ReachIn(g, a, p, n - 1);
      ClosedHoldsReachable(g, s, a, p, n - 1);
    }
  }

  /** If every walkable cell is reachable from one walkable cell `s`, the walkable cells are connected. */
  lemma ConnectedFrom(g: Grid, s: Pos)
    requires Walkable(g, s)
    requires forall p :: Walkable(g, p) ==> Reachable(g, s, p)
    ensures Connected(g)
  {
    forall a, b | Walkable(g, a) && Walkable(g, b)
      ensures Reachable(g, a, b)
    {
      var m: nat :| ReachIn(g, s, a, m);
      var n: nat :| ReachIn(g, s, b, n);
      ReachReverse(g, s, a, m);
      ReachConcat(g, a, s, b, m, n);
    }
  }
}
