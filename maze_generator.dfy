/**
 * `gerar_labirinto`: the maze generator. After the carving search it removes dead
 * ends until nothing changes, turns every open cell into a pellet or a power
 * pellet, and stamps the ghost house in the middle.
 */
module MazeGenerator {
  import opened Grid
  import opened Random
  import opened Carving
  import opened Wrappers

  /** The dimensions actually used: each even one is made odd by taking one off. */
  function Dimensions(linhas: int, colunas: int): (r: (int, int))
    ensures r.0 % 2 == 1 && r.1 % 2 == 1
    ensures r.0 == linhas || (linhas % 2 == 0 && r.0 == linhas - 1)
    ensures r.1 == colunas || (colunas % 2 == 0 && r.1 == colunas - 1)
  {
    (if linhas % 2 == 0 then linhas - 1 else linhas, if colunas % 2 == 0 then colunas - 1 else colunas)
  }

  /** The starting grid: every cell a wall. */
  function AllWalls(rows: nat, cols: nat): (g: Grid)
    ensures Shape(g, rows, cols) && Binary(g)
    ensures forall p :: InGrid(g, p) ==> At(g, p) == Wall
  {
    seq(rows, _ => seq(cols, _ => Wall))
  }

  lemma AllWallsReach(g: Grid, s: Pos)
    requires forall p :: InGrid(g, p) ==> At(g, p) == Wall
    ensures AllReach(g, s)
  {
  }

  // ----- dead ends -----

  function Count(b: bool): nat
  {
    if b then 1 else 0
  }

  /** How many of the four neighbours of an interior cell are open (0). */
  function OpenNeighbours(g: Grid, rows: int, cols: int, p: Pos): (n: nat)
    requires Shape(g, rows, cols) && Interior(rows, cols, p)
    ensures n <= 4
  {
    Count(g[p.y - 1][p.x] == Empty) + Count(g[p.y + 1][p.x] == Empty)
    + Count(g[p.y][p.x - 1] == Empty) + Count(g[p.y][p.x + 1] == Empty)
  }

  /** An interior wall cell in direction `d` from `p`, the kind a dead end is opened into. */
  predicate InteriorWall(g: Grid, rows: int, cols: int, p: Pos, d: Pos)
    requires Shape(g, rows, cols)
  {
    Interior(rows, cols, p.Plus(d)) && g[p.y + d.y][p.x + d.x] == Wall
  }

  /** The pass leaves `p` alone: it is not open, or not a dead end, or has no interior wall next to it. */
  predicate Settled(g: Grid, rows: int, cols: int, p: Pos)
    requires Shape(g, rows, cols) && Interior(rows, cols, p)
  {
    || g[p.y][p.x] != Empty
    || OpenNeighbours(g, rows, cols, p) >= 2
    || forall j :: 0 <= j < 4 ==> !InteriorWall(g, rows, cols, p, UnitSteps[j])
  }

  ghost predicate AllSettled(g: Grid, rows: int, cols: int)
  {
    && Shape(g, rows, cols)
    && forall p {:trigger Settled(g, rows, cols, p)} :: Interior(rows, cols, p) ==> Settled(g, rows, cols, p)
  }

  /** The shuffled directions are still the four directions. */
  lemma ShuffledDirs(dirs: seq<Pos>)
    requires multiset(dirs) == multiset(UnitSteps)
    ensures forall j :: 0 <= j < 4 ==> UnitSteps[j] in dirs
  {
    forall j | 0 <= j < 4
      ensures UnitSteps[j] in dirs
    {
      assert UnitSteps[j] in multiset(UnitSteps);
    }
  }

  /** Opening an interior wall next to an open cell keeps the grid binary and every open cell reachable. */
  lemma OpenDeadEnd(g: Grid, rows: int, cols: int, p: Pos, d: Pos, s: Pos)
    requires Shape(g, rows, cols) && Binary(g) && AllReach(g, s) && Interior(rows, cols, p)
    requires g[p.y][p.x] == Empty && d in UnitSteps && InteriorWall(g, rows, cols, p, d)
    ensures var h := Set(g, p.Plus(d), Empty);
      Opens(g, h, rows, cols) && Binary(h) && AllReach(h, s) && Walls(h) < Walls(g)
  {
    var n := p.Plus(d);
    OpenOne(g, rows, cols, n);
    OpenKeepsReach(g, s, n, p);
  }

  /** When none of the shuffled directions leads to an interior wall, none of the four does. */
  lemma NoInteriorWall(g: Grid, rows: int, cols: int, p: Pos, dirs: seq<Pos>)
    requires Shape(g, rows, cols) && multiset(dirs) == multiset(UnitSteps)
    requires forall k :: 0 <= k < |dirs| ==> !InteriorWall(g, rows, cols, p, dirs[k])
    ensures forall j :: 0 <= j < 4 ==> !InteriorWall(g, rows, cols, p, UnitSteps[j])
  {
    ShuffledDirs(dirs);
    forall j | 0 <= j < 4
      ensures !InteriorWall(g, rows, cols, p, UnitSteps[j])
    {
      var k :| 0 <= k < |dirs| && dirs[k] == UnitSteps[j];
    }
  }

  lemma OpensRefl(g: Grid, rows: int, cols: int)
    requires Shape(g, rows, cols)
    ensures Opens(g, g, rows, cols)
  {
  }

  /** The loop over the shuffled directions: the first one leading to an interior wall, or `|dirs|`. */
  method FirstInteriorWall(g: Grid, rows: int, cols: int, p: Pos, dirs: seq<Pos>) returns (i: int)
    requires Shape(g, rows, cols)
    ensures 0 <= i <= |dirs|
    ensures forall k :: 0 <= k < i ==> !InteriorWall(g, rows, cols, p, dirs[k])
    ensures i < |dirs| ==> InteriorWall(g, rows, cols, p, dirs[i])
  {
    i := 0;
    while i < |dirs|
      invariant 0 <= i <= |dirs|
      invariant forall k :: 0 <= k < i ==> !InteriorWall(g, rows, cols, p, dirs[k])
    {
      var n := p.Plus(dirs[i]);
      if 0 < n.x < cols - 1 && 0 < n.y < rows - 1 && g[n.y][n.x] == Wall {
        return;
      }
      i := i + 1;
    }
  }

  /**
   * The body of the scan for one interior cell `p`: an open cell with at most one
   * open neighbour is joined to the first interior wall among the shuffled directions.
   */
  method FixCell(g: Grid, rows: int, cols: int, p: Pos, rng: Rng, ghost s: Pos)
    returns (h: Grid, rng': Rng, changed: bool)
    requires Shape(g, rows, cols) && Binary(g) && AllReach(g, s) && Interior(rows, cols, p)
    ensures Opens(g, h, rows, cols) && Binary(h) && AllReach(h, s)
    ensures changed ==> exists d :: d in UnitSteps && InteriorWall(g, rows, cols, p, d) && h == Set(g, p.Plus(d), Empty)
    ensures changed ==> Walls(h) < Walls(g)
    ensures !changed ==> h == g && Settled(g, rows, cols, p)
  {
    OpensRefl(g, rows, cols);
    h, rng', changed := g, rng, false;
    if g[p.y][p.x] == Empty && OpenNeighbours(g, rows, cols, p) <= 1 {
      var shuffled := Shuffle(UnitSteps, rng);
      var dirs := shuffled.0;
      rng' := shuffled.1;
      var i := FirstInteriorWall(g, rows, cols, p, dirs);
      if i < |dirs| {
        assert dirs[i] in multiset(UnitSteps);
        OpenDeadEnd(g, rows, cols, p, dirs[i], s);
        h, changed := Set(g, p.Plus(dirs[i]), Empty), true;
      } else {
        NoInteriorWall(g, rows, cols, p, dirs);
      }
    }
  }

  /** The inner `for x` loop of one pass, over the interior cells of row `y`. */
  method ScanRow(g: Grid, rows: int, cols: int, y: int, rng: Rng, ghost s: Pos)
    returns (h: Grid, rng': Rng, changed: bool)
    requires Shape(g, rows, cols) && Binary(g) && AllReach(g, s) && 1 <= y <= rows - 2 && cols >= 3
    ensures Opens(g, h, rows, cols) && Binary(h) && AllReach(h, s)
    ensures changed ==> Walls(h) < Walls(g)
    ensures !changed ==> h == g && forall x :: 1 <= x <= cols - 2 ==> Settled(g, rows, cols, Pos(x, y))
  {
    OpensRefl(g, rows, cols);
    h, rng', changed := g, rng, false;
    for x := 1 to cols - 1
      invariant Opens(g, h, rows, cols) && Binary(h) && AllReach(h, s)
      invariant changed ==> Walls(h) < Walls(g)
      invariant !changed ==> h == g && forall x' :: 1 <= x' < x ==> Settled(g, rows, cols, Pos(x', y))
    {
      ghost var before := h;
      var c;
      h, rng', c := FixCell(h, rows, cols, Pos(x, y), rng', s);
      OpensTrans(g, before, h, rows, cols);
      WallsShrink(before, h, rows, cols);
      changed := changed || c;
    }
  }

  /** One pass of the `while alterado` loop: every interior row in turn. */
  method ScanPass(g: Grid, rows: int, cols: int, rng: Rng, ghost s: Pos)
    returns (h: Grid, rng': Rng, changed: bool)
    requires Shape(g, rows, cols) && Binary(g) && AllReach(g, s) && rows >= 3 && cols >= 3
    ensures Opens(g, h, rows, cols) && Binary(h) && AllReach(h, s)
    ensures changed ==> Walls(h) < Walls(g)
    ensures !changed ==> h == g && AllSettled(g, rows, cols)
  {
    OpensRefl(g, rows, cols);
    h, rng', changed := g, rng, false;
    for y := 1 to rows - 1
      invariant Opens(g, h, rows, cols) && Binary(h) && AllReach(h, s)
      invariant changed ==> Walls(h) < Walls(g)
      invariant !changed ==> h == g && forall p :: Interior(rows, cols, p) && p.y < y ==> Settled(g, rows, cols, p)
    {
      ghost var before := h;
      var c;
      h, rng', c := ScanRow(h, rows, cols, y, rng', s);
      OpensTrans(g, before, h, rows, cols);
      WallsShrink(before, h, rows, cols);
      changed := changed || c;
      if !changed {
        forall p | Interior(rows, cols, p) && p.y < y + 1
          ensures Settled(g, rows, cols, p)
        {
          if p.y == y {
            assert p == Pos(p.x, y);
          }
        }
      }
    }
  }

  /**
   * The `while alterado` loop: passes until one opens nothing. Every pass that opens
   * something removes a wall, so the loop ends.
   */
  method RemoveDeadEnds(g: Grid, rows: int, cols: int, rng: Rng, ghost s: Pos)
    returns (h: Grid, rng': Rng)
    requires Shape(g, rows, cols) && Binary(g) && AllReach(g, s) && rows >= 3 && cols >= 3
    ensures Opens(g, h, rows, cols) && Binary(h) && AllReach(h, s)
    ensures AllSettled(h, rows, cols)
    ensures rows >= 5 && cols >= 5 ==>
      forall p :: Interior(rows, cols, p) && At(h, p) == Empty ==> OpenNeighbours(h, rows, cols, p) >= 2
  {
    OpensRefl(g, rows, cols);
    h, rng' := g, rng;
    var changed := true;
    while changed
      invariant Opens(g, h, rows, cols) && Binary(h) && AllReach(h, s)
      invariant !changed ==> AllSettled(h, rows, cols)
      decreases Walls(h), changed
    {
      ghost var before := h;
      h, rng', changed := ScanPass(h, rows, cols, rng', s);
      OpensTrans(g, before, h, rows, cols);
    }
    if rows >= 5 && cols >= 5 {
      forall p | Interior(rows, cols, p) && At(h, p) == Empty
        ensures OpenNeighbours(h, rows, cols, p) >= 2
      {
        NoDeadEnds(h, rows, cols, p);
      }
    }
  }

  /**
   * Once no pass changes anything, and the maze is at least 5 by 5, every open
   * interior cell has at least two open neighbours: a cell with fewer has an interior
   * wall next to it, which the pass would have opened.
   */
  lemma NoDeadEnds(g: Grid, rows: int, cols: int, p: Pos)
    requires AllSettled(g, rows, cols) && Binary(g) && rows >= 5 && cols >= 5
    requires Interior(rows, cols, p) && At(g, p) == Empty
    ensures OpenNeighbours(g, rows, cols, p) >= 2
  {
    assert Settled(g, rows, cols, p);
    if OpenNeighbours(g, rows, cols, p) < 2 {
      TwoOpen(g, rows, cols, p, if p.x > 1 then 3 else 2, if p.y > 1 then 1 else 0);
    }
  }

  /** A horizontal and a vertical neighbour that are not interior walls are open, when the maze is at least 5 by 5. */
  lemma TwoOpen(g: Grid, rows: int, cols: int, p: Pos, h: int, v: int)
    requires Shape(g, rows, cols) && Binary(g) && rows >= 5 && cols >= 5 && Interior(rows, cols, p)
    requires h == (if p.x > 1 then 3 else 2) && v == (if p.y > 1 then 1 else 0)
    requires !InteriorWall(g, rows, cols, p, UnitSteps[h]) && !InteriorWall(g, rows, cols, p, UnitSteps[v])
    ensures OpenNeighbours(g, rows, cols, p) >= 2
  {
    assert At(g, p.Plus(UnitSteps[h])) == Empty;
    assert At(g, p.Plus(UnitSteps[v])) == Empty;
  }

  // ----- pellets -----

  /** What the pellet pass makes of a cell holding `a`: an open cell becomes a pellet or a power pellet, anything else stays. */
  predicate PelletOf(a: int, b: int)
  {
    if a == Empty then b == Pellet || b == PowerPellet else b == a
  }

  /** The inner `for x` loop of the pellet pass, over row `y`. */
  method PelletRow(g: Grid, rows: int, cols: int, y: int, rng: Rng) returns (h: Grid, rng': Rng)
    requires Shape(g, rows, cols) && 0 <= y < rows
    ensures Shape(h, rows, cols)
    ensures forall q {:trigger At(h, q)} :: InGrid(g, q) ==>
      if q.y == y then PelletOf(At(g, q), At(h, q)) else At(h, q) == At(g, q)
  {
    h, rng' := g, rng;
    assert |g[y]| == cols;
    for x := 0 to cols
      invariant Shape(h, rows, cols)
      invariant forall q {:trigger At(h, q)} :: InGrid(g, q) ==>
        if q.y == y && q.x < x then PelletOf(At(g, q), At(h, q)) else At(h, q) == At(g, q)
    {
      assert At(h, Pos(x, y)) == At(g, Pos(x, y));
      if h[y][x] == Empty {
        var coin := Chance(rng', 50);
        rng' := coin.1;
        h := Set(h, Pos(x, y), if coin.0 then PowerPellet else Pellet);
      }
    }
  }

  /** The pellet pass over every cell; the 2% chance of a power pellet is one draw in 50 landing on 0. */
  method PlacePellets(g: Grid, rows: int, cols: int, rng: Rng) returns (h: Grid, rng': Rng)
    requires Shape(g, rows, cols)
    ensures Shape(h, rows, cols)
    ensures forall q {:trigger At(h, q)} :: InGrid(g, q) ==> PelletOf(At(g, q), At(h, q))
  {
    h, rng' := g, rng;
    for y := 0 to rows
      invariant Shape(h, rows, cols)
      invariant forall q {:trigger At(h, q)} :: InGrid(g, q) ==>
        if q.y < y then PelletOf(At(g, q), At(h, q)) else At(h, q) == At(g, q)
    {
      h, rng' := PelletRow(h, rows, cols, y, rng');
    }
  }

  /** Grids with the same walkable cells have the same walks. */
  lemma SameWalks(g: Grid, h: Grid, s: Pos)
    requires forall p :: Walkable(g, p) <==> Walkable(h, p)
    requires AllReach(g, s)
    ensures AllReach(h, s)
  {
    forall p | Walkable(h, p)
      ensures Reachable(h, s, p)
    {
      var n: nat :| ReachIn(g, s, p, n);
      ReachMonotone(g, h, s, p, n);
    }
  }

  /** The pellet pass keeps every cell's walkability and leaves no open (0) cell. */
  lemma PelletsKeepWalks(g: Grid, h: Grid, rows: int, cols: int, s: Pos)
    requires Shape(g, rows, cols) && Shape(h, rows, cols) && AllReach(g, s)
    requires forall q {:trigger At(h, q)} :: InGrid(g, q) ==> PelletOf(At(g, q), At(h, q))
    ensures forall p :: Walkable(g, p) <==> Walkable(h, p)
    ensures forall p :: InGrid(h, p) ==> At(h, p) != Empty
    ensures AllReach(h, s)
  {
    forall p
      ensures Walkable(g, p) <==> Walkable(h, p)
    {
      if InGrid(g, p) {
        assert PelletOf(At(g, p), At(h, p));
      }
    }
    forall p | InGrid(h, p)
      ensures At(h, p) != Empty
    {
      assert PelletOf(At(g, p), At(h, p));
    }
    SameWalks(g, h, s);
  }

  // ----- the ghost house -----

  /** The middle cell `(colunas // 2, linhas // 2)`, which becomes the house centre (4). */
  function Centre(rows: int, cols: int): Pos
  {
    Pos(cols / 2, rows / 2)
  }

  /** Within two cells of the middle in both directions: the 5 by 5 house block. */
  predicate InHouse(rows: int, cols: int, q: Pos)
  {
    -2 <= q.x - cols / 2 <= 2 && -2 <= q.y - rows / 2 <= 2
  }

  /** The inner `for j` loop of the house stamp: opens the block's cells of row `rows // 2 + i` that lie in the grid. */
  method HouseRow(g: Grid, rows: int, cols: int, i: int) returns (h: Grid)
    requires Shape(g, rows, cols) && -2 <= i <= 2
    ensures Shape(h, rows, cols)
    ensures forall q {:trigger At(h, q)} :: InGrid(g, q) ==>
      At(h, q) == if q.y == rows / 2 + i && -2 <= q.x - cols / 2 <= 2 then Empty else At(g, q)
  {
    h := g;
    for j := -2 to 3
      invariant Shape(h, rows, cols)
      invariant forall q {:trigger At(h, q)} :: InGrid(g, q) ==>
        At(h, q) == if q.y == rows / 2 + i && -2 <= q.x - cols / 2 < j then Empty else At(g, q)
    {
      if 0 <= rows / 2 + i < rows && 0 <= cols / 2 + j < cols {
        h := Set(h, Pos(cols / 2 + j, rows / 2 + i), Empty);
      }
    }
  }

  /** The house stamp: the block's cells inside the grid become open, then the middle becomes the house centre. */
  method StampHouse(g: Grid, rows: int, cols: int) returns (h: Grid)
    requires Shape(g, rows, cols) && rows >= 1 && cols >= 1
    ensures Shape(h, rows, cols)
    ensures forall q {:trigger At(h, q)} :: InGrid(g, q) ==>
      At(h, q) == if q == Centre(rows, cols) then HouseCentre else if InHouse(rows, cols, q) then Empty else At(g, q)
  {
    h := g;
    for i := -2 to 3
      invariant Shape(h, rows, cols)
      invariant forall q {:trigger At(h, q)} :: InGrid(g, q) ==>
        At(h, q) == if InHouse(rows, cols, q) && q.y - rows / 2 < i then Empty else At(g, q)
    {
      h := HouseRow(h, rows, cols, i);
    }
    h := Set(h, Centre(rows, cols), HouseCentre);
  }

  /** Inside a block of walkable cells, `a` reaches `b` in as many steps as they are apart. */
  lemma {:induction false} HouseWalk(h: Grid, rows: int, cols: int, a: Pos, b: Pos)
    requires Shape(h, rows, cols)
    requires forall q :: InGrid(h, q) && InHouse(rows, cols, q) ==> Walkable(h, q)
    requires InGrid(h, a) && InHouse(rows, cols, a) && InGrid(h, b) && InHouse(rows, cols, b)
    ensures ReachIn(h, a, b, Manhattan(a, b))
    decreases Manhattan(a, b)
  {
    if a == b {
      assert Manhattan(a, b) == 0;
    } else {
      var a' := Toward(a, b);
      var k := Manhattan(a', b);
      assert InGrid(h, a') && InHouse(rows, cols, a');
      HouseWalk(h, rows, cols, a', b);
      assert Step(h, a, a');
      ReachPrepend(h, a, a', b, k);
      assert k + 1 == Manhattan(a, b);
    }
  }

  /** One unit step from `a` towards `b`, along x first. */
  function Toward(a: Pos, b: Pos): (r: Pos)
    requires a != b
    ensures Adjacent(a, r) && Manhattan(r, b) == Manhattan(a, b) - 1
    ensures a.x <= r.x <= b.x || b.x <= r.x <= a.x
    ensures a.y <= r.y <= b.y || b.y <= r.y <= a.y
  {
    if a.x < b.x then Pos(a.x + 1, a.y)
    else if a.x > b.x then Pos(a.x - 1, a.y)
    else if a.y < b.y then Pos(a.x, a.y + 1)
    else Pos(a.x, a.y - 1)
  }

  /** A room inside the house block: the middle, or the cell up and/or left of it where a coordinate is even. */
  function HouseRoom(rows: int, cols: int): (r: Pos)
    requires rows % 2 == 1 && cols % 2 == 1 && rows >= 3 && cols >= 3
    ensures Room(rows, cols, r) && InHouse(rows, cols, r)
  {
    Pos(if (cols / 2) % 2 == 1 then cols / 2 else cols / 2 - 1, if (rows / 2) % 2 == 1 then rows / 2 else rows / 2 - 1)
  }

  /** Stamping the house onto a connected maze that has an open room inside the block keeps it connected. */
  lemma HouseConnected(g: Grid, h: Grid, rows: int, cols: int, r: Pos)
    requires Shape(g, rows, cols) && Shape(h, rows, cols) && Connected(g)
    requires forall q {:trigger At(h, q)} :: InGrid(g, q) ==>
      At(h, q) == if q == Centre(rows, cols) then HouseCentre else if InHouse(rows, cols, q) then Empty else At(g, q)
    requires Walkable(g, r) && InHouse(rows, cols, r)
    ensures Connected(h)
  {
    assert Walkable(h, r);
    assert forall q :: Walkable(g, q) ==> Walkable(h, q);
    assert forall q :: InGrid(h, q) && InHouse(rows, cols, q) ==> Walkable(h, q);
    forall p | Walkable(h, p)
      ensures Reachable(h, r, p)
    {
      if InHouse(rows, cols, p) {
        HouseWalk(h, rows, cols, r, p);
      } else {
        assert Walkable(g, p);
        var n: nat :| ReachIn(g, r, p, n);
        ReachMonotone(g, h, r, p, n);
      }
    }
    ConnectedFrom(h, r);
  }

  // ----- the whole generator -----

  /**
   * What the generator promises of a `rows` by `cols` maze: the house stamped in the
   * middle, only walls, pellets and power pellets outside it, walls on the border
   * outside the house (the whole border from 7 by 7 up), every room walkable, and
   * every walkable cell reachable from every other.
   */
  ghost predicate Generated(maze: Grid, rows: int, cols: int)
  {
    && Shape(maze, rows, cols)
    && (forall p :: InGrid(maze, p) && InHouse(rows, cols, p) ==>
          At(maze, p) == if p == Centre(rows, cols) then HouseCentre else Empty)
    && (forall p :: InGrid(maze, p) && !InHouse(rows, cols, p) ==>
          At(maze, p) == Wall || At(maze, p) == Pellet || At(maze, p) == PowerPellet)
    && (forall p :: InGrid(maze, p) && !InHouse(rows, cols, p) && !Interior(rows, cols, p) ==> At(maze, p) == Wall)
    && (rows >= 7 && cols >= 7 ==> forall p :: InGrid(maze, p) && !Interior(rows, cols, p) ==> At(maze, p) == Wall)
    && (forall p :: Room(rows, cols, p) ==> Walkable(maze, p))
    && Connected(maze)
  }

  /**
   * `gerar_labirinto(linhas, colunas)` with an outcome: below 3 in either dimension
   * the start room is drawn from an empty range and the call raises, which is `None`;
   * otherwise the maze is generated.
   */
  method TryGenerateMaze(linhas: int, colunas: int, rng: Rng) returns (r: Option<Grid>, rng': Rng)
    ensures r.None? <==> linhas < 3 || colunas < 3
    ensures r.Some? ==> var (rows, cols) := Dimensions(linhas, colunas); Generated(r.value, rows, cols)
  {
    if linhas < 3 || colunas < 3 {
      return None, rng;
    }
    var maze;
    maze, rng' := GenerateMaze(linhas, colunas, rng);
    r := Some(maze);
  }

  /** `gerar_labirinto(linhas, colunas)` when both dimensions are at least 3. */
  method GenerateMaze(linhas: int, colunas: int, rng: Rng) returns (maze: Grid, rng': Rng)
    requires linhas >= 3 && colunas >= 3
    ensures var (rows, cols) := Dimensions(linhas, colunas); Generated(maze, rows, cols)
  {
    var dims := Dimensions(linhas, colunas);
    var rows, cols := dims.0, dims.1;
    var walls := AllWalls(rows, cols);
    var sx := RandRange2(rng, 1, cols);
    var sy := RandRange2(sx.1, 1, rows);
    var s := Pos(sx.0, sy.0);
    assert Room(rows, cols, s);
    AllWallsReach(walls, s);
    var carved;
    carved, rng' := Carve(walls, rows, cols, s, sy.1, s, s);
    AllRoomsOpen(walls, carved, rows, cols, s);
    var open;
    open, rng' := RemoveDeadEnds(carved, rows, cols, rng', s);
    OpensTrans(walls, carved, open, rows, cols);
    var pellets;
    pellets, rng' := PlacePellets(open, rows, cols, rng');
    PelletsKeepWalks(open, pellets, rows, cols, s);
    ConnectedFrom(pellets, s);
    maze := StampHouse(pellets, rows, cols);
    HouseConnected(pellets, maze, rows, cols, HouseRoom(rows, cols));
    GeneratedCells(walls, open, pellets, maze, rows, cols);
    BorderWalls(maze, rows, cols);
  }

  /** From 7 by 7 up the house block lies off the border, so the whole border is wall. */
  lemma BorderWalls(maze: Grid, rows: int, cols: int)
    requires Shape(maze, rows, cols)
    requires forall p :: InGrid(maze, p) && !InHouse(rows, cols, p) && !Interior(rows, cols, p) ==> At(maze, p) == Wall
    ensures rows >= 7 && cols >= 7 ==> forall p :: InGrid(maze, p) && !Interior(rows, cols, p) ==> At(maze, p) == Wall
  {
    if rows >= 7 && cols >= 7 {
      forall p | InGrid(maze, p) && !Interior(rows, cols, p)
        ensures At(maze, p) == Wall
      {
        assert !InHouse(rows, cols, p);
      }
    }
  }

  /** After the search from `s`, every room is open. */
  lemma AllRoomsOpen(walls: Grid, carved: Grid, rows: int, cols: int, s: Pos)
    requires forall p :: InGrid(walls, p) ==> At(walls, p) == Wall
    requires NewRoomsSpread(walls, carved, rows, cols, None)
    requires Room(rows, cols, s) && At(carved, s) == Empty
    ensures forall p :: Room(rows, cols, p) ==> At(carved, p) == Empty
  {
    forall p | Room(rows, cols, p)
      ensures At(carved, p) == Empty
    {
      RoomsOpen(carved, rows, cols, s, p);
    }
  }

  /** What each stage leaves in each cell, put together. */
  lemma GeneratedCells(walls: Grid, open: Grid, pellets: Grid, maze: Grid, rows: int, cols: int)
    requires forall p :: InGrid(walls, p) ==> At(walls, p) == Wall
    requires Opens(walls, open, rows, cols) && Binary(open)
    requires forall p :: Room(rows, cols, p) ==> At(open, p) == Empty
    requires Shape(pellets, rows, cols)
    requires forall q {:trigger At(pellets, q)} :: InGrid(open, q) ==> PelletOf(At(open, q), At(pellets, q))
    requires Shape(maze, rows, cols)
    requires forall q {:trigger At(maze, q)} :: InGrid(pellets, q) ==>
      At(maze, q) == if q == Centre(rows, cols) then HouseCentre else if InHouse(rows, cols, q) then Empty else At(pellets, q)
    ensures forall p :: InGrid(maze, p) && InHouse(rows, cols, p) ==>
      At(maze, p) == if p == Centre(rows, cols) then HouseCentre else Empty
    ensures forall p :: InGrid(maze, p) && !InHouse(rows, cols, p) ==>
      At(maze, p) == Wall || At(maze, p) == Pellet || At(maze, p) == PowerPellet
    ensures forall p :: InGrid(maze, p) && !InHouse(rows, cols, p) && !Interior(rows, cols, p) ==> At(maze, p) == Wall
    ensures forall p :: Room(rows, cols, p) ==> Walkable(maze, p)
  {
    forall p | InGrid(maze, p) && InHouse(rows, cols, p)
      ensures At(maze, p) == if p == Centre(rows, cols) then HouseCentre else Empty
    {
      assert InGrid(pellets, p);
    }
    forall p | InGrid(maze, p) && !InHouse(rows, cols, p)
      ensures At(maze, p) == Wall || At(maze, p) == Pellet || At(maze, p) == PowerPellet
      ensures !Interior(rows, cols, p) ==> At(maze, p) == Wall
    {
      assert At(maze, p) == At(pellets, p);
      assert PelletOf(At(open, p), At(pellets, p));
      assert At(open, p) == At(walls, p) || Interior(rows, cols, p);
    }
    forall p | Room(rows, cols, p)
      ensures Walkable(maze, p)
    {
      assert PelletOf(At(open, p), At(pellets, p));
    }
  }
}
