/**
 * The carving phase of the maze generator (`dfs` inside `gerar_labirinto`): a
 * randomised depth-first search over the cells whose coordinates are both odd
 * ("rooms"), opening each room it enters and the wall cell between that room and
 * the room it came from.
 */
module Carving {
  import opened Grid
  import opened Random
  import opened Wrappers

  /** The grid has `rows` rows of `cols` cells each. */
  predicate Shape(g: Grid, rows: int, cols: int)
  {
    |g| == rows && forall y :: 0 <= y < |g| ==> |g[y]| == cols
  }

  /** Not on the outer border. */
  predicate Interior(rows: int, cols: int, p: Pos)
  {
    1 <= p.x <= cols - 2 && 1 <= p.y <= rows - 2
  }

  /** A cell with both coordinates odd: the nodes the carving search moves between. */
  predicate Room(rows: int, cols: int, p: Pos)
  {
    Interior(rows, cols, p) && p.x % 2 == 1 && p.y % 2 == 1
  }

  /** Every cell is open (0) or a wall (1). */
  ghost predicate Binary(g: Grid)
  {
    forall p {:trigger At(g, p)} :: InGrid(g, p) ==> At(g, p) == Empty || At(g, p) == Wall
  }

  /** `h` is `g` with some interior walls opened and nothing else changed. */
  ghost predicate Opens(g: Grid, h: Grid, rows: int, cols: int)
  {
    && Shape(g, rows, cols) && Shape(h, rows, cols)
    && forall p {:trigger At(h, p)} :: InGrid(g, p) ==>
         At(h, p) == At(g, p) || (At(g, p) == Wall && At(h, p) == Empty && Interior(rows, cols, p))
  }

  lemma OpensTrans(g: Grid, h: Grid, k: Grid, rows: int, cols: int)
    requires Opens(g, h, rows, cols) && Opens(h, k, rows, cols)
    ensures Opens(g, k, rows, cols)
  {
    forall p | InGrid(g, p)
      ensures At(k, p) == At(g, p) || (At(g, p) == Wall && At(k, p) == Empty && Interior(rows, cols, p))
    {
      assert At(h, p) == At(g, p) || (At(g, p) == Wall && At(h, p) == Empty && Interior(rows, cols, p));
    }
  }

  /** The positions of the walls. */
  function Walls(g: Grid): set<Pos>
  {
    set y, x | 0 <= y < |g| && 0 <= x < |g[y]| && g[y][x] == Wall :: Pos(x, y)
  }

  lemma InWalls(g: Grid, p: Pos)
    ensures p in Walls(g) <==> InGrid(g, p) && At(g, p) == Wall
  {
    if InGrid(g, p) && At(g, p) == Wall {
      assert Pos(p.x, p.y) == p;
    }
  }

  /** Opening walls never adds one, and opening a wall removes it. */
  lemma WallsShrink(g: Grid, h: Grid, rows: int, cols: int)
    requires Opens(g, h, rows, cols)
    ensures Walls(h) <= Walls(g)
    ensures forall p :: InGrid(g, p) && At(g, p) == Wall && At(h, p) == Empty ==> Walls(h) < Walls(g)
  {
    forall p | p in Walls(h)
      ensures p in Walls(g)
    {
      InWalls(h, p);
      InWalls(g, p);
    }
    forall p | InGrid(g, p) && At(g, p) == Wall && At(h, p) == Empty
      ensures Walls(h) < Walls(g)
    {
      InWalls(h, p);
      InWalls(g, p);
    }
  }

  /** Opening one interior cell of a grid of walls and open cells. */
  lemma OpenOne(g: Grid, rows: int, cols: int, p: Pos)
    requires Shape(g, rows, cols) && Binary(g) && Interior(rows, cols, p)
    ensures Opens(g, Set(g, p, Empty), rows, cols) && Binary(Set(g, p, Empty))
    ensures Walls(Set(g, p, Empty)) <= Walls(g)
    ensures At(g, p) == Wall ==> Walls(Set(g, p, Empty)) < Walls(g)
  {
    WallsShrink(g, Set(g, p, Empty), rows, cols);
  }

  /** Cells open in `g` stay open in `h`, which also has `ps[i]` open. */
  lemma KeepOpen(g: Grid, h: Grid, rows: int, cols: int, ps: seq<Pos>, i: int)
    requires Opens(g, h, rows, cols) && 0 <= i < |ps|
    requires forall k :: 0 <= k < i ==> InGrid(g, ps[k]) && At(g, ps[k]) == Empty
    requires InGrid(h, ps[i]) && At(h, ps[i]) == Empty
    ensures forall k :: 0 <= k < i + 1 ==> InGrid(h, ps[k]) && At(h, ps[k]) == Empty
  {
  }

  // ----- reachability of the open cells -----

  /** Every open cell can be reached from `s`. */
  ghost predicate AllReach(g: Grid, s: Pos)
  {
    forall p :: Walkable(g, p) ==> Reachable(g, s, p)
  }

  /** Opening `p`, the start itself or a cell next to an open cell, keeps every open cell reachable. */
  lemma OpenKeepsReach(g: Grid, s: Pos, p: Pos, m: Pos)
    requires AllReach(g, s) && InGrid(g, p)
    requires p == s || (Adjacent(m, p) && Walkable(g, m))
    ensures AllReach(Set(g, p, Empty), s)
  {
    var h := Set(g, p, Empty);
    assert forall r :: Walkable(g, r) ==> Walkable(h, r) by {
      forall r | Walkable(g, r)
        ensures Walkable(h, r)
      {
        if r != p {
          assert At(h, r) == At(g, r);
        }
      }
    }
    forall r | Walkable(h, r)
      ensures Reachable(h, s, r)
    {
      if r == p && p == s {
        assert ReachIn(h, s, r, 0);
      } else if r == p {
        var n: nat :| ReachIn(g, s, m, n);
        ReachMonotone(g, h, s, m, n);
        ReachExtend(h, s, m, n, p);
      } else {
        assert At(h, r) == At(g, r);
        assert Walkable(g, r);
        var n: nat :| ReachIn(g, s, r, n);
        ReachMonotone(g, h, s, r, n);
      }
    }
  }

  // ----- the search -----

  /** The moves between rooms: left, right, up, down by two cells. */
  const RoomSteps: seq<Pos> := [Pos(-2, 0), Pos(2, 0), Pos(0, -2), Pos(0, 2)]

  /** The wall cell between two rooms two cells apart. */
  function Mid(a: Pos, b: Pos): Pos
  {
    Pos((a.x + b.x) / 2, (a.y + b.y) / 2)
  }

  /** Every room two cells away from `v` in a straight line is open. */
  ghost predicate Spread(g: Grid, rows: int, cols: int, v: Pos)
  {
    && Shape(g, rows, cols)
    && forall j :: 0 <= j < 4 && Room(rows, cols, v.Plus(RoomSteps[j])) ==> At(g, v.Plus(RoomSteps[j])) == Empty
  }

  lemma SpreadKept(g: Grid, h: Grid, rows: int, cols: int, v: Pos)
    requires Opens(g, h, rows, cols) && Spread(g, rows, cols, v)
    ensures Spread(h, rows, cols, v)
  {
    forall j | 0 <= j < 4 && Room(rows, cols, v.Plus(RoomSteps[j]))
      ensures At(h, v.Plus(RoomSteps[j])) == Empty
    {
      assert At(g, v.Plus(RoomSteps[j])) == Empty;
    }
  }

  /** Every room that was a wall in `g` and is open in `h`, other than `c`, has its neighbouring rooms open in `h`. */
  ghost predicate NewRoomsSpread(g: Grid, h: Grid, rows: int, cols: int, c: Option<Pos>)
  {
    && Shape(g, rows, cols) && Shape(h, rows, cols)
    && forall v {:trigger Spread(h, rows, cols, v)} :: Room(rows, cols, v) && Some(v) != c && At(g, v) == Wall && At(h, v) == Empty ==>
         Spread(h, rows, cols, v)
  }

  /** `n` is two cells left of, right of, above or below `c`. */
  predicate RoomStep(c: Pos, n: Pos)
  {
    || (n.y == c.y && (n.x == c.x - 2 || n.x == c.x + 2))
    || (n.x == c.x && (n.y == c.y - 2 || n.y == c.y + 2))
  }

  /**
   * `vizinhos_validos` before its shuffle: the rooms two cells to the left, right,
   * above and below `c`, in that order, where they lie inside the border.
   */
  function Candidates(c: Pos, rows: int, cols: int): (r: seq<Pos>)
    requires Room(rows, cols, c) && rows % 2 == 1 && cols % 2 == 1
    ensures forall n :: n in r ==> Room(rows, cols, n) && RoomStep(c, n)
    ensures forall j :: 0 <= j < 4 && Room(rows, cols, c.Plus(RoomSteps[j])) ==> c.Plus(RoomSteps[j]) in r
  {
    (if c.x > 1 then [Pos(c.x - 2, c.y)] else [])
    + (if c.x < cols - 2 then [Pos(c.x + 2, c.y)] else [])
    + (if c.y > 1 then [Pos(c.x, c.y - 2)] else [])
    + (if c.y < rows - 2 then [Pos(c.x, c.y + 2)] else [])
  }

  /** The cell between two neighbouring rooms is an interior non-room cell next to both. */
  lemma MidBetween(rows: int, cols: int, c: Pos, n: Pos)
    requires Room(rows, cols, c) && Room(rows, cols, n) && RoomStep(c, n)
    ensures Interior(rows, cols, Mid(c, n)) && !Room(rows, cols, Mid(c, n))
    ensures Adjacent(c, Mid(c, n)) && Adjacent(Mid(c, n), n)
  {
    if n.x == c.x - 2 && n.y == c.y {
      assert Mid(c, n) == Pos(c.x - 1, c.y);
    } else if n.x == c.x + 2 && n.y == c.y {
      assert Mid(c, n) == Pos(c.x + 1, c.y);
    } else if n.y == c.y - 2 {
      assert Mid(c, n) == Pos(c.x, c.y - 1);
    } else {
      assert Mid(c, n) == Pos(c.x, c.y + 1);
    }
  }

  /** Opening the wall between `c` and the next room keeps what the loop of `Carve` knows. */
  lemma OpenMid(g: Grid, h: Grid, rows: int, cols: int, c: Pos, mid: Pos)
    requires Opens(g, h, rows, cols) && Binary(h) && NewRoomsSpread(g, h, rows, cols, Some(c))
    requires Interior(rows, cols, mid) && !Room(rows, cols, mid)
    ensures Opens(g, Set(h, mid, Empty), rows, cols) && Opens(h, Set(h, mid, Empty), rows, cols)
    ensures Binary(Set(h, mid, Empty))
    ensures NewRoomsSpread(g, Set(h, mid, Empty), rows, cols, Some(c))
    ensures Walls(Set(h, mid, Empty)) <= Walls(h)
  {
    var k := Set(h, mid, Empty);
    OpenOne(h, rows, cols, mid);
    OpensTrans(g, h, k, rows, cols);
    forall v | Room(rows, cols, v) && Some(v) != Some(c) && At(g, v) == Wall && At(k, v) == Empty
      ensures Spread(k, rows, cols, v)
    {
      assert At(h, v) == At(k, v);
      SpreadKept(h, k, rows, cols, v);
    }
  }

  /** What a recursive call of `Carve` returns keeps what the loop of `Carve` knows. */
  lemma AfterCall(g: Grid, h: Grid, k: Grid, rows: int, cols: int, c: Pos)
    requires Opens(g, h, rows, cols) && Opens(h, k, rows, cols)
    requires NewRoomsSpread(g, h, rows, cols, Some(c)) && NewRoomsSpread(h, k, rows, cols, None)
    ensures Opens(g, k, rows, cols) && NewRoomsSpread(g, k, rows, cols, Some(c))
  {
    OpensTrans(g, h, k, rows, cols);
    forall v | Room(rows, cols, v) && Some(v) != Some(c) && At(g, v) == Wall && At(k, v) == Empty
      ensures Spread(k, rows, cols, v)
    {
      if At(h, v) == Empty {
        SpreadKept(h, k, rows, cols, v);
      }
    }
  }

  /** The shuffled candidates are still neighbouring rooms of `c`. */
  lemma ShuffledRooms(rows: int, cols: int, c: Pos, nbrs: seq<Pos>)
    requires Room(rows, cols, c) && rows % 2 == 1 && cols % 2 == 1
    requires multiset(nbrs) == multiset(Candidates(c, rows, cols))
    ensures forall k :: 0 <= k < |nbrs| ==> Room(rows, cols, nbrs[k]) && RoomStep(c, nbrs[k])
  {
    forall k | 0 <= k < |nbrs|
      ensures Room(rows, cols, nbrs[k]) && RoomStep(c, nbrs[k])
    {
      assert nbrs[k] in multiset(nbrs);
    }
  }

  /** Once every candidate of `c` is open, `c` has all its neighbouring rooms open. */
  lemma CandidatesOpen(g: Grid, h: Grid, rows: int, cols: int, c: Pos, nbrs: seq<Pos>)
    requires Room(rows, cols, c) && rows % 2 == 1 && cols % 2 == 1
    requires multiset(nbrs) == multiset(Candidates(c, rows, cols))
    requires NewRoomsSpread(g, h, rows, cols, Some(c))
    requires forall k :: 0 <= k < |nbrs| ==> InGrid(h, nbrs[k]) && At(h, nbrs[k]) == Empty
    ensures NewRoomsSpread(g, h, rows, cols, None)
  {
    forall j | 0 <= j < 4 && Room(rows, cols, c.Plus(RoomSteps[j]))
      ensures At(h, c.Plus(RoomSteps[j])) == Empty
    {
      var n := c.Plus(RoomSteps[j]);
      assert n in multiset(nbrs);
      var k :| 0 <= k < |nbrs| && nbrs[k] == n;
    }
    assert Spread(h, rows, cols, c);
  }

  /**
   * `dfs(x, y)`: opens the room `c`, then takes its neighbouring rooms in shuffled
   * order and carves towards each of them. `s` is the room the whole search started
   * from, `m` the open cell through which `c` was entered.
   */
  method Carve(maze: Grid, rows: int, cols: int, c: Pos, rng: Rng, ghost s: Pos, ghost m: Pos)
    returns (maze': Grid, rng': Rng)
    requires Shape(maze, rows, cols) && rows % 2 == 1 && cols % 2 == 1
    requires Binary(maze) && Room(rows, cols, c) && At(maze, c) == Wall
    requires AllReach(maze, s) && (c == s || (Adjacent(m, c) && Walkable(maze, m)))
    ensures Opens(maze, maze', rows, cols) && Binary(maze') && At(maze', c) == Empty
    ensures NewRoomsSpread(maze, maze', rows, cols, None)
    ensures AllReach(maze', s)
    decreases Walls(maze), 0
  {
    OpenOne(maze, rows, cols, c);
    OpenKeepsReach(maze, s, c, m);
    maze' := Set(maze, c, Empty);
    var shuffled := Shuffle(Candidates(c, rows, cols), rng);
    var nbrs := shuffled.0;
    rng' := shuffled.1;
    ShuffledRooms(rows, cols, c, nbrs);
    for i := 0 to |nbrs|
      invariant Opens(maze, maze', rows, cols) && Binary(maze') && At(maze', c) == Empty
      invariant forall k :: 0 <= k < i ==> InGrid(maze', nbrs[k]) && At(maze', nbrs[k]) == Empty
      invariant NewRoomsSpread(maze, maze', rows, cols, Some(c))
      invariant AllReach(maze', s)
      invariant Walls(maze') < Walls(maze)
    {
      ghost var before := maze';
      maze', rng' := CarveTowards(maze, maze', rows, cols, c, nbrs[i], rng', s);
      KeepOpen(before, maze', rows, cols, nbrs, i);
    }
    CandidatesOpen(maze, maze', rows, cols, c, nbrs);
  }

  /**
   * One turn of the loop in `dfs`: if the neighbouring room `n` is still a wall,
   * open the cell between `c` and `n` and carve on from `n`. `g0` is the grid `dfs`
   * of `c` started from.
   */
  method CarveTowards(g0: Grid, g: Grid, rows: int, cols: int, c: Pos, n: Pos, rng: Rng, ghost s: Pos)
    returns (h: Grid, rng': Rng)
    requires Shape(g0, rows, cols) && rows % 2 == 1 && cols % 2 == 1
    requires Room(rows, cols, c) && Room(rows, cols, n) && RoomStep(c, n)
    requires Opens(g0, g, rows, cols) && Binary(g) && At(g, c) == Empty
    requires NewRoomsSpread(g0, g, rows, cols, Some(c)) && AllReach(g, s)
    ensures Opens(g0, h, rows, cols) && Opens(g, h, rows, cols) && Binary(h) && At(h, c) == Empty
    ensures InGrid(h, n) && At(h, n) == Empty
    ensures NewRoomsSpread(g0, h, rows, cols, Some(c)) && AllReach(h, s)
    ensures Walls(h) <= Walls(g)
    decreases Walls(g), 1
  {
    h, rng' := g, rng;
    if g[n.y][n.x] == Wall {
      var mid := Pos((c.x + n.x) / 2, (c.y + n.y) / 2);
      assert mid == Mid(c, n);
      MidBetween(rows, cols, c, n);
      OpenMid(g0, g, rows, cols, c, mid);
      OpenKeepsReach(g, s, mid, c);
      h := Set(g, mid, Empty);
      ghost var afterMid := h;
      h, rng' := Carve(h, rows, cols, n, rng', s, mid);
      AfterCall(g0, afterMid, h, rows, cols, c);
      OpensTrans(g, afterMid, h, rows, cols);
      WallsShrink(afterMid, h, rows, cols);
    }
  }

  // ----- every room is reached -----

  /** Every room of `s`'s row is open. */
  lemma {:induction false} RoomRowOpen(g: Grid, rows: int, cols: int, s: Pos, x: int)
    requires Shape(g, rows, cols) && Room(rows, cols, s) && At(g, s) == Empty
    requires forall v {:trigger Spread(g, rows, cols, v)} :: Room(rows, cols, v) && At(g, v) == Empty ==> Spread(g, rows, cols, v)
    requires Room(rows, cols, Pos(x, s.y))
    ensures At(g, Pos(x, s.y)) == Empty
    decreases if x >= s.x then x - s.x else s.x - x
  {
    if x > s.x {
      RoomRowOpen(g, rows, cols, s, x - 2);
      assert Spread(g, rows, cols, Pos(x - 2, s.y));
      assert Pos(x - 2, s.y).Plus(RoomSteps[1]) == Pos(x, s.y);
    } else if x < s.x {
      RoomRowOpen(g, rows, cols, s, x + 2);
      assert Spread(g, rows, cols, Pos(x + 2, s.y));
      assert Pos(x + 2, s.y).Plus(RoomSteps[0]) == Pos(x, s.y);
    }
  }

  /** Every room is open when the open rooms, among them `s`, have their neighbouring rooms open. */
  lemma {:induction false} RoomsOpen(g: Grid, rows: int, cols: int, s: Pos, p: Pos)
    requires Shape(g, rows, cols) && Room(rows, cols, s) && At(g, s) == Empty
    requires forall v {:trigger Spread(g, rows, cols, v)} :: Room(rows, cols, v) && At(g, v) == Empty ==> Spread(g, rows, cols, v)
    requires Room(rows, cols, p)
    ensures At(g, p) == Empty
    decreases if p.y >= s.y then p.y - s.y else s.y - p.y
  {
    if p.y == s.y {
      RoomRowOpen(g, rows, cols, s, p.x);
    } else if p.y > s.y {
      var q := Pos(p.x, p.y - 2);
      RoomsOpen(g, rows, cols, s, q);
      assert Spread(g, rows, cols, q);
      assert q.Plus(RoomSteps[3]) == p;
    } else {
      var q := Pos(p.x, p.y + 2);
      RoomsOpen(g, rows, cols, s, q);
      assert Spread(g, rows, cols, q);
      assert q.Plus(RoomSteps[2]) == p;
    }
  }
}
