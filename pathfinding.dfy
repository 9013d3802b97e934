/**
 * Grid path finding (pathfinding.py): the breadth-first next step towards a target
 * and the search for the nearest walkable cell.
 */
module Pathfinding {
  import opened Wrappers
  import opened Grid

  /** The order in which `bfs_next_step` tries neighbours: right, left, down, up. */
  const BfsDirs: seq<Pos> := [Pos(1, 0), Pos(-1, 0), Pos(0, 1), Pos(0, -1)]

  /**
   * The order in which `find_nearest_walkable_global` tries neighbours. The left
   * move is listed twice and the upward move never, so that search only ever
   * visits the start row and the rows below it.
   */
  const NearestDirs: seq<Pos> := [Pos(1, 0), Pos(-1, 0), Pos(0, 1), Pos(-1, 0)]

  lemma UnitIsBfsDir(d: Pos)
    requires IsUnit(d)
    ensures exists j :: 0 <= j < 4 && d == BfsDirs[j]
  {
    if d == Pos(1, 0) { assert d == BfsDirs[0]; }
    else if d == Pos(-1, 0) { assert d == BfsDirs[1]; }
    else if d == Pos(0, 1) { assert d == BfsDirs[2]; }
    else { assert d == BfsDirs[3]; }
  }

  // ----- the breadth-first next step -----

  /**
   * The predecessor map `prev` and its levels: every discovered cell other than the
   * start was discovered from a discovered cell one step closer.
   */
  ghost predicate Chain(g: Grid, s: Pos, prev: map<Pos, Option<Pos>>, level: map<Pos, nat>)
  {
    && s in prev && prev[s] == None && level.Keys == prev.Keys && level[s] == 0
    && (forall v {:trigger prev[v]} :: v in prev && v != s ==>
          prev[v].Some? && prev[v].value in prev && Step(g, prev[v].value, v)
          && level[v] == level[prev[v].value] + 1)
  }

  /** Each level is the length of a shortest walk from the start. */
  ghost predicate Links(g: Grid, s: Pos, prev: map<Pos, Option<Pos>>, level: map<Pos, nat>)
  {
    && Chain(g, s, prev, level)
    && (forall v, k: nat :: v in prev && ReachIn(g, s, v, k) ==> level[v] <= k)
  }

  /** Following the links from a discovered cell back to the start is a walk of its level's length. */
  lemma {:induction false} ChainReach(g: Grid, s: Pos, prev: map<Pos, Option<Pos>>, level: map<Pos, nat>, v: Pos)
    requires Chain(g, s, prev, level) && v in prev
    ensures ReachIn(g, s, v, level[v])
    decreases level[v]
  {
    if v != s {
      var p := prev[v].value;
      ChainReach(g, s, prev, level, p);
      ReachExtend(g, s, p, level[p], v);
    }
  }

  /** Recording `n` as discovered from `u` keeps the links consistent. */
  lemma DiscoverKeepsLinks(g: Grid, s: Pos, prev: map<Pos, Option<Pos>>, level: map<Pos, nat>, u: Pos, n: Pos)
    requires Links(g, s, prev, level)
    requires u in prev && n !in prev && Step(g, u, n)
    requires forall w, k: nat :: k <= level[u] && ReachIn(g, s, w, k) ==> w in prev
    ensures Links(g, s, prev[n := Some(u)], level[n := level[u] + 1])
  {
  }

  /** Every discovered cell is a grid cell, apart from the start. */
  ghost predicate InCells(g: Grid, s: Pos, prev: map<Pos, Option<Pos>>)
  {
    prev.Keys <= AllCells(g) + {s}
  }

  /** Expanded cells were discovered; discovered cells not yet expanded wait in the queue. */
  ghost predicate Covered(q: seq<Pos>, prev: map<Pos, Option<Pos>>, done: set<Pos>)
  {
    && done <= prev.Keys
    && (forall v :: v in prev && v !in done ==> v in q)
  }

  /**
   * The queue holds distinct discovered, unexpanded cells whose levels do not
   * decrease and lie between `lo` and `lo + 1`.
   */
  ghost predicate Queue(q: seq<Pos>, prev: map<Pos, Option<Pos>>, level: map<Pos, nat>, done: set<Pos>, lo: nat)
  {
    && (forall i :: 0 <= i < |q| ==> q[i] in prev && q[i] in level && q[i] !in done)
    && (forall i :: 0 <= i < |q| ==> lo <= level[q[i]] <= lo + 1)
    && (forall i, j :: 0 <= i < j < |q| ==> q[i] != q[j])
    && (forall i, j :: 0 <= i <= j < |q| ==> level[q[i]] <= level[q[j]])
  }

  /** Every neighbour of an expanded cell other than `u` has been discovered. */
  ghost predicate ClosedBut(g: Grid, done: set<Pos>, u: Option<Pos>, prev: map<Pos, Option<Pos>>)
  {
    forall v, w {:trigger Step(g, v, w)} :: v in done && Some(v) != u && Step(g, v, w) ==> w in prev
  }

  /** The first `i` neighbours of `u`, in the order tried, are discovered where walkable. */
  ghost predicate Tried(g: Grid, u: Pos, i: nat, prev: map<Pos, Option<Pos>>)
  {
    forall j :: 0 <= j < i && j < 4 && Walkable(g, u.Plus(BfsDirs[j])) ==> u.Plus(BfsDirs[j]) in prev
  }

  ghost predicate DoneBelow(level: map<Pos, nat>, done: set<Pos>, lo: nat)
  {
    forall v :: v in done && v in level ==> level[v] <= lo
  }

  /** Every cell within `d` steps of the start is discovered. */
  ghost predicate Ball(g: Grid, s: Pos, prev: map<Pos, Option<Pos>>, d: nat)
  {
    forall w, k: nat :: k <= d && ReachIn(g, s, w, k) ==> w in prev
  }

  /** The state of the search before a cell is taken off the queue. */
  ghost predicate Inv(g: Grid, s: Pos, t: Pos, q: seq<Pos>, prev: map<Pos, Option<Pos>>, level: map<Pos, nat>, done: set<Pos>)
  {
    && Links(g, s, prev, level) && t !in prev && InCells(g, s, prev)
    && Covered(q, prev, done) && ClosedBut(g, done, None, prev)
    && (|q| > 0 ==> q[0] in level && Queue(q, prev, level, done, level[q[0]])
                    && DoneBelow(level, done, level[q[0]]) && Ball(g, s, prev, level[q[0]]))
  }

  /** The state while cell `u` (of level `d`, already counted as expanded) has its first `i` neighbours tried. */
  ghost predicate InnerInv(g: Grid, s: Pos, t: Pos, u: Pos, d: nat, i: nat, q: seq<Pos>,
                           prev: map<Pos, Option<Pos>>, level: map<Pos, nat>, done: set<Pos>)
  {
    && Links(g, s, prev, level) && t !in prev && InCells(g, s, prev)
    && u in done && u in level && level[u] == d
    && Covered(q, prev, done) && Queue(q, prev, level, done, d)
    && ClosedBut(g, done, Some(u), prev) && Tried(g, u, i, prev)
    && DoneBelow(level, done, d) && Ball(g, s, prev, d)
  }

  lemma PopQueue(q: seq<Pos>, prev: map<Pos, Option<Pos>>, level: map<Pos, nat>, done: set<Pos>)
    requires |q| > 0 && q[0] in level && Queue(q, prev, level, done, level[q[0]])
    ensures Queue(q[1..], prev, level, done + {q[0]}, level[q[0]])
  {
    forall k | 0 <= k < |q| - 1
      ensures q[1..][k] != q[0]
    {
      assert q[1..][k] == q[k + 1];
    }
  }

  lemma PopCovered(q: seq<Pos>, prev: map<Pos, Option<Pos>>, done: set<Pos>)
    requires |q| > 0 && q[0] in prev && Covered(q, prev, done)
    ensures Covered(q[1..], prev, done + {q[0]})
  {
    forall v | v in prev && v !in done + {q[0]}
      ensures v in q[1..]
    {
      var k :| 0 <= k < |q| && q[k] == v;
      assert q[1..][k - 1] == v;
    }
  }

  lemma PopKeepsInv(g: Grid, s: Pos, t: Pos, q: seq<Pos>, prev: map<Pos, Option<Pos>>, level: map<Pos, nat>, done: set<Pos>)
    requires Inv(g, s, t, q, prev, level, done) && |q| > 0
    ensures InnerInv(g, s, t, q[0], level[q[0]], 0, q[1..], prev, level, done + {q[0]})
  {
    PopQueue(q, prev, level, done);
    PopCovered(q, prev, done);
  }

  lemma SkipKeepsInv(g: Grid, s: Pos, t: Pos, u: Pos, d: nat, i: nat, q: seq<Pos>,
                     prev: map<Pos, Option<Pos>>, level: map<Pos, nat>, done: set<Pos>)
    requires InnerInv(g, s, t, u, d, i, q, prev, level, done) && i < 4
    requires !Walkable(g, u.Plus(BfsDirs[i])) || u.Plus(BfsDirs[i]) in prev
    ensures InnerInv(g, s, t, u, d, i + 1, q, prev, level, done)
  {
  }

  lemma DiscoverQueue(q: seq<Pos>, prev: map<Pos, Option<Pos>>, level: map<Pos, nat>, done: set<Pos>, d: nat, n: Pos, u: Pos)
    requires Queue(q, prev, level, done, d) && Covered(q, prev, done) && n !in prev
    ensures Queue(q + [n], prev[n := Some(u)], level[n := d + 1], done, d)
    ensures Covered(q + [n], prev[n := Some(u)], done)
  {
  }

  lemma DiscoverRest(g: Grid, s: Pos, t: Pos, u: Pos, d: nat, i: nat,
                     prev: map<Pos, Option<Pos>>, level: map<Pos, nat>, done: set<Pos>, n: Pos)
    requires InCells(g, s, prev) && ClosedBut(g, done, Some(u), prev) && Tried(g, u, i, prev)
    requires DoneBelow(level, done, d) && Ball(g, s, prev, d) && done <= prev.Keys
    requires i < 4 && n == u.Plus(BfsDirs[i]) && Walkable(g, n) && n !in prev
    ensures InCells(g, s, prev[n := Some(u)]) && ClosedBut(g, done, Some(u), prev[n := Some(u)])
    ensures Tried(g, u, i + 1, prev[n := Some(u)])
    ensures DoneBelow(level[n := d + 1], done, d) && Ball(g, s, prev[n := Some(u)], d)
  {
  }

  lemma DiscoverKeepsInv(g: Grid, s: Pos, t: Pos, u: Pos, d: nat, i: nat, q: seq<Pos>,
                         prev: map<Pos, Option<Pos>>, level: map<Pos, nat>, done: set<Pos>, n: Pos)
    requires InnerInv(g, s, t, u, d, i, q, prev, level, done) && i < 4
    requires n == u.Plus(BfsDirs[i]) && Walkable(g, n) && n !in prev && n != t
    ensures InnerInv(g, s, t, u, d, i + 1, q + [n], prev[n := Some(u)], level[n := d + 1], done)
  {
    DiscoverKeepsLinks(g, s, prev, level, u, n);
    DiscoverQueue(q, prev, level, done, d, n, u);
    DiscoverRest(g, s, t, u, d, i, prev, level, done, n);
  }

  lemma FinishQueue(q: seq<Pos>, prev: map<Pos, Option<Pos>>, level: map<Pos, nat>, done: set<Pos>, d: nat)
    requires |q| > 0 && Queue(q, prev, level, done, d)
    ensures q[0] in level
    ensures Queue(q, prev, level, done, level[q[0]])
  {
  }

  /** Once all four neighbours of `u` have been tried, every expanded cell has its neighbours discovered. */
  lemma TriedAllCloses(g: Grid, u: Pos, done: set<Pos>, prev: map<Pos, Option<Pos>>)
    requires ClosedBut(g, done, Some(u), prev) && Tried(g, u, 4, prev)
    ensures ClosedBut(g, done, None, prev)
  {
    forall w | Step(g, u, w)
      ensures w in prev
    {
      UnitIsBfsDir(Pos(w.x - u.x, w.y - u.y));
      var j :| 0 <= j < 4 && Pos(w.x - u.x, w.y - u.y) == BfsDirs[j];
      assert w == u.Plus(BfsDirs[j]);
    }
  }

  /** When the front of the queue moves to level `d + 1`, every cell of level at most `d` has been expanded. */
  lemma LevelExhausted(q: seq<Pos>, prev: map<Pos, Option<Pos>>, level: map<Pos, nat>, done: set<Pos>, d: nat)
    requires |q| > 0 && Covered(q, prev, done) && Queue(q, prev, level, done, d + 1) && level.Keys == prev.Keys
    ensures forall v :: v in prev && level[v] <= d ==> v in done
  {
  }

  lemma FinishKeepsInv(g: Grid, s: Pos, t: Pos, u: Pos, d: nat, q: seq<Pos>,
                       prev: map<Pos, Option<Pos>>, level: map<Pos, nat>, done: set<Pos>)
    requires InnerInv(g, s, t, u, d, 4, q, prev, level, done)
    ensures Inv(g, s, t, q, prev, level, done)
  {
    TriedAllCloses(g, u, done, prev);
    if |q| > 0 {
      FinishQueue(q, prev, level, done, d);
      if level[q[0]] == d + 1 {
        LevelExhausted(q, prev, level, done, d);
        BallGrows(g, s, prev, level, done, d);
      }
    }
  }

  /** When the queue runs dry, the discovered cells are closed under steps, so the target is unreachable. */
  lemma ExhaustedUnreachable(g: Grid, s: Pos, t: Pos, prev: map<Pos, Option<Pos>>, level: map<Pos, nat>, done: set<Pos>)
    requires Inv(g, s, t, [], prev, level, done)
    ensures !Reachable(g, s, t)
  {
    forall n: nat | ReachIn(g, s, t, n)
      ensures false
    {
      ClosedHoldsReachable(g, done, s, t, n);
    }
  }

  /** Once every cell of level at most `d` has been expanded, everything within `d + 1` steps is discovered. */
  lemma BallGrows(g: Grid, s: Pos, prev: map<Pos, Option<Pos>>, level: map<Pos, nat>, done: set<Pos>, d: nat)
    requires Links(g, s, prev, level) && Ball(g, s, prev, d)
    requires forall v :: v in prev && level[v] <= d ==> v in done
    requires ClosedBut(g, done, None, prev)
    ensures Ball(g, s, prev, d + 1)
  {
    forall w, k: nat | k <= d + 1 && ReachIn(g, s, w, k)
      ensures w in prev
    {
      if k == d + 1 {
        var p :| Step(g, p, w) && ReachIn(g, s, p, d);
        assert p in prev && level[p] <= d;
      }
    }
  }

  lemma DirStep(g: Grid, u: Pos, i: nat)
    requires i < 4 && Walkable(g, u.Plus(BfsDirs[i]))
    ensures Step(g, u, u.Plus(BfsDirs[i]))
  {
  }

  /** Discovered cells are only ever added, and only grid cells are added, so the undiscovered cells shrink. */
  lemma UndiscoveredShrinks(all: set<Pos>, s: Pos, before: set<Pos>, after: set<Pos>)
    requires s in before && before <= after && after <= all + {s} && before != after
    ensures all - after < all - before
  {
    var n :| n in after && n !in before;
    assert n in all - before;
  }

  /** A discovered target's level is its distance from the start. */
  lemma LevelIsDist(g: Grid, s: Pos, t: Pos, prev: map<Pos, Option<Pos>>, level: map<Pos, nat>, n: nat)
    requires Links(g, s, prev, level) && t in prev && level[t] == n
    ensures Dist(g, s, t, n)
    ensures forall k: nat :: ReachIn(g, s, t, k) ==> n <= k
  {
    ChainReach(g, s, prev, level, t);
  }

  /** `b` was discovered from `a`. */
  ghost predicate Linked(prev: map<Pos, Option<Pos>>, a: Pos, b: Pos)
  {
    b in prev && prev[b] == Some(a)
  }

  /** Each cell of `p` after the first was discovered from the cell before it. */
  ghost predicate LinkPath(prev: map<Pos, Option<Pos>>, p: seq<Pos>)
  {
    |p| > 0 && forall i :: 0 <= i < |p| - 1 ==> Linked(prev, p[i], p[i + 1])
  }

  lemma LinkPathCons(prev: map<Pos, Option<Pos>>, c: Pos, p: seq<Pos>)
    requires LinkPath(prev, p) && Linked(prev, c, p[0])
    ensures LinkPath(prev, [c] + p)
  {
    var p' := [c] + p;
    forall i | 0 <= i < |p'| - 1
      ensures Linked(prev, p'[i], p'[i + 1])
    {
      if i > 0 {
        assert p'[i + 1] == p[i] && p'[i] == p[i - 1];
      }
    }
  }

  lemma {:induction false} LinkPathReach(g: Grid, s: Pos, prev: map<Pos, Option<Pos>>, level: map<Pos, nat>, p: seq<Pos>)
    requires Chain(g, s, prev, level) && LinkPath(prev, p)
    requires forall i :: 1 <= i < |p| ==> p[i] != s
    ensures ReachIn(g, p[0], p[|p| - 1], |p| - 1)
    decreases |p|
  {
    if |p| > 1 {
      var p' := p[1..];
      assert LinkPath(prev, p') by {
        forall i | 0 <= i < |p'| - 1
          ensures Linked(prev, p'[i], p'[i + 1])
        {
          assert p'[i + 1] == p[i + 2] && p'[i] == p[i + 1];
        }
      }
      LinkPathReach(g, s, prev, level, p');
      assert Linked(prev, p[0], p[1]);
      ReachPrepend(g, p[0], p[1], p[|p| - 1], |p| - 2);
    }
  }

  /** Follows the predecessor links back from the target to the cell entered first. */
  method FirstStep(ghost g: Grid, s: Pos, t: Pos, prev: map<Pos, Option<Pos>>, ghost level: map<Pos, nat>, ghost n: nat)
    returns (first: Pos)
    requires Chain(g, s, prev, level)
    requires t in prev && t != s && level[t] == n + 1
    requires forall k: nat :: ReachIn(g, s, t, k) ==> n + 1 <= k
    ensures Step(g, s, first) && Dist(g, first, t, n)
  {
    var cur := t;
    ghost var path := [t];
    while prev[cur] != None && prev[cur] != Some(s)
      invariant cur in prev && cur != s && level[cur] <= level[t]
      invariant LinkPath(prev, path) && path[0] == cur && path[|path| - 1] == t
      invariant |path| - 1 == level[t] - level[cur]
      invariant s !in path
      decreases level[cur]
    {
      var p := prev[cur].value;
      LinkPathCons(prev, p, path);
      path := [p] + path;
      cur := p;
    }
    TraceEnds(g, s, t, prev, level, path, n);
    first := cur;
  }

  /** The walk along the links from `path[0]` to the target is a shortest one. */
  lemma TraceEnds(g: Grid, s: Pos, t: Pos, prev: map<Pos, Option<Pos>>, level: map<Pos, nat>, path: seq<Pos>, n: nat)
    requires Chain(g, s, prev, level) && LinkPath(prev, path) && path[|path| - 1] == t
    requires forall i :: 0 <= i < |path| ==> path[i] != s
    requires path[0] in prev && (prev[path[0]] == None || prev[path[0]] == Some(s))
    requires t in prev && level[t] == n + 1 && level[path[0]] <= level[t] && |path| - 1 == level[t] - level[path[0]]
    requires forall k: nat :: ReachIn(g, s, t, k) ==> n + 1 <= k
    ensures Step(g, s, path[0]) && Dist(g, path[0], t, n)
  {
    LinkPathReach(g, s, prev, level, path);
    LastLink(g, s, t, prev, level, path[0], |path| - 1, n);
  }

  /** The link walk stops at the cell whose predecessor is the start; nothing shorter leads from there. */
  lemma LastLink(g: Grid, s: Pos, t: Pos, prev: map<Pos, Option<Pos>>, level: map<Pos, nat>, c: Pos, k: nat, n: nat)
    requires Chain(g, s, prev, level)
    requires t in prev && c in prev && c != s && (prev[c] == None || prev[c] == Some(s))
    requires level[t] == n + 1 && level[c] <= level[t] && k == level[t] - level[c]
    requires ReachIn(g, c, t, k)
    requires forall j: nat :: ReachIn(g, s, t, j) ==> n + 1 <= j
    ensures Step(g, s, c) && Dist(g, c, t, n)
  {
    assert prev[c] == Some(s);
    assert k == n;
    forall j: nat | ReachIn(g, c, t, j)
      ensures j >= n
    {
      ReachPrepend(g, s, c, t, j);
    }
  }

  /** The source's bounds-and-wall test, for a rectangular maze. */
  predicate Open(maze: Grid, n: Pos)
    requires Rectangular(maze)
  {
    0 <= n.x < |maze[0]| && 0 <= n.y < |maze| && maze[n.y][n.x] != Wall
  }

  lemma OpenIsWalkable(maze: Grid, n: Pos)
    requires Rectangular(maze)
    ensures Open(maze, n) <==> Walkable(maze, n)
  {
  }

  /** Discovering the target from `u` at level `d` fixes its distance at `d + 1`. */
  lemma TargetFound(g: Grid, s: Pos, t: Pos, u: Pos, d: nat, prev: map<Pos, Option<Pos>>, level: map<Pos, nat>)
    requires Links(g, s, prev, level) && Ball(g, s, prev, d)
    requires u in prev && level[u] == d && t !in prev && Step(g, u, t)
    ensures Chain(g, s, prev[t := Some(u)], level[t := d + 1])
    ensures Dist(g, s, t, d + 1) && forall k: nat :: ReachIn(g, s, t, k) ==> d + 1 <= k
  {
    DiscoverKeepsLinks(g, s, prev, level, u, t);
    LevelIsDist(g, s, t, prev[t := Some(u)], level[t := d + 1], d + 1);
  }

  /**
   * One pass of the inner loop of `bfs_next_step`: the neighbours of `u` are tried
   * right, left, down, up; each open, undiscovered one is recorded with `u` as its
   * predecessor and, unless it is the target, appended to the queue. Reaching the
   * target ends the search with the cell entered first on a shortest walk.
   */
  method Expand(maze: Grid, start: Pos, target: Pos, u: Pos, q0: seq<Pos>, prev0: map<Pos, Option<Pos>>,
                ghost level0: map<Pos, nat>, ghost done: set<Pos>, ghost d: nat)
    returns (found: bool, first: Pos, q: seq<Pos>, prev: map<Pos, Option<Pos>>, ghost level: map<Pos, nat>)
    requires Rectangular(maze)
    requires InnerInv(maze, start, target, u, d, 0, q0, prev0, level0, done)
    ensures found ==> Step(maze, start, first) && Dist(maze, start, target, d + 1) && Dist(maze, first, target, d)
    ensures !found ==> Inv(maze, start, target, q, prev, level, done)
    ensures !found ==> prev0.Keys <= prev.Keys && (prev.Keys == prev0.Keys ==> q == q0)
  {
    q, prev, level := q0, prev0, level0;
    for i := 0 to 4
      invariant InnerInv(maze, start, target, u, d, i, q, prev, level, done)
      invariant prev0.Keys <= prev.Keys
      invariant prev.Keys == prev0.Keys ==> q == q0
    {
      var n := u.Plus(BfsDirs[i]);
      OpenIsWalkable(maze, n);
      if Open(maze, n) && n !in prev {
        DirStep(maze, u, i);
        if n == target {
          TargetFound(maze, start, target, u, d, prev, level);
          prev := prev[n := Some(u)];
          level := level[n := d + 1];
          first := FirstStep(maze, start, target, prev, level, d);
          found := true;
          return;
        }
        DiscoverKeepsInv(maze, start, target, u, d, i, q, prev, level, done, n);
        prev := prev[n := Some(u)];
        level := level[n := d + 1];
        q := q + [n];
      } else {
        SkipKeepsInv(maze, start, target, u, d, i, q, prev, level, done);
      }
    }
    FinishKeepsInv(maze, start, target, u, d, q, prev, level, done);
    found, first := false, u;
  }

  /** A wall or a cell outside the grid cannot be reached from any other cell. */
  lemma WallUnreachable(g: Grid, s: Pos, t: Pos)
    requires s != t && !Walkable(g, t)
    ensures !Reachable(g, s, t)
  {
    forall n: nat | ReachIn(g, s, t, n)
      ensures false
    {
    }
  }

  /** The move from `a` to the neighbouring cell `b`. */
  function Offset(a: Pos, b: Pos): (r: Pos)
    requires Adjacent(a, b)
    ensures IsUnit(r) && a.Plus(r) == b
  {
    Pos(b.x - a.x, b.y - a.y)
  }

  /** The move onto `first` is the answer when `first` starts a shortest walk to the target. */
  lemma FirstMove(maze: Grid, start: Pos, target: Pos, first: Pos, d: nat)
    requires Step(maze, start, first) && Dist(maze, start, target, d + 1) && Dist(maze, first, target, d)
    ensures Offset(start, first) != Pos(0, 0) && start != target && Reachable(maze, start, target)
    ensures IsUnit(Offset(start, first)) && Walkable(maze, start.Plus(Offset(start, first)))
    ensures exists n: nat :: Dist(maze, start, target, n + 1) && Dist(maze, start.Plus(Offset(start, first)), target, n)
  {
    assert ReachIn(maze, start, target, d + 1);
    assert start != target by {
      assert !ReachIn(maze, start, target, 0);
    }
    assert Dist(maze, start.Plus(Offset(start, first)), target, d);
  }

  /**
   * `bfs_next_step`: the first move of a shortest walk from `start` to `target`
   * through non-wall cells, or `(0, 0)` when the two coincide or no walk exists.
   */
  method BfsNextStep(start: Pos, target: Pos, maze: Grid) returns (r: Pos)
    requires Rectangular(maze)
    ensures r == Pos(0, 0) <==> start == target || !Reachable(maze, start, target)
    ensures r != Pos(0, 0) ==> IsUnit(r) && Walkable(maze, start.Plus(r))
    ensures r != Pos(0, 0) ==>
      exists n: nat :: Dist(maze, start, target, n + 1) && Dist(maze, start.Plus(r), target, n)
  {
    if start == target {
      return Pos(0, 0);
    }
    var q := [start];
    var prev: map<Pos, Option<Pos>> := map[start := None];
    ghost var level: map<Pos, nat> := map[start := 0];
    ghost var done: set<Pos> := {};
    while |q| > 0
      invariant Inv(maze, start, target, q, prev, level, done)
      decreases AllCells(maze) - prev.Keys, |q|
    {
      PopKeepsInv(maze, start, target, q, prev, level, done);
      var u := q[0];
      q := q[1..];
      done := done + {u};
      ghost var keys := prev.Keys;
      var found, first;
      ghost var d := level[u];
      found, first, q, prev, level := Expand(maze, start, target, u, q, prev, level, done, d);
      if found {
        FirstMove(maze, start, target, first, d);
        r := Offset(start, first);
        return;
      }
      if prev.Keys != keys {
        UndiscoveredShrinks(AllCells(maze), start, keys, prev.Keys);
      }
    }
    ExhaustedUnreachable(maze, start, target, prev, level, done);
    r := Pos(0, 0);
  }

  // ----- the nearest walkable cell -----

  /** Every visited cell is the start or a grid wall, never above the start row. */
  ghost predicate VisitedWalls(g: Grid, s: Pos, visited: set<Pos>)
  {
    forall v :: v in visited ==> v.y >= s.y && (v == s || (InGrid(g, v) && At(g, v) == Wall))
  }

  /** Every expanded cell other than `c` has its in-grid neighbours, in the search's order, visited. */
  ghost predicate Spread(g: Grid, done: set<Pos>, c: Option<Pos>, visited: set<Pos>)
  {
    forall v, j {:trigger v.Plus(NearestDirs[j])} ::
      v in done && Some(v) != c && 0 <= j < 4 && InGrid(g, v.Plus(NearestDirs[j])) ==> v.Plus(NearestDirs[j]) in visited
  }

  /** The state of the nearest-cell search between two cells taken off the queue. */
  ghost predicate SearchInv(g: Grid, s: Pos, q: seq<Pos>, visited: set<Pos>, done: set<Pos>, c: Option<Pos>)
  {
    && s in visited && !Walkable(g, s)
    && (forall i :: 0 <= i < |q| ==> q[i] in visited)
    && done <= visited
    && (forall v :: v in visited ==> v in done || v in q)
    && VisitedWalls(g, s, visited)
    && Spread(g, done, c, visited)
    && visited <= AllCells(g) + {s}
  }

  lemma SearchPop(g: Grid, s: Pos, q: seq<Pos>, visited: set<Pos>, done: set<Pos>)
    requires SearchInv(g, s, q, visited, done, None) && |q| > 0
    ensures SearchInv(g, s, q[1..], visited, done + {q[0]}, Some(q[0]))
  {
    forall v | v in visited && v !in done + {q[0]}
      ensures v in q[1..]
    {
      var k :| 0 <= k < |q| && q[k] == v;
      assert q[1..][k - 1] == v;
    }
  }

  /** No move of the search goes up. */
  lemma NoUpMove(c: Pos, i: nat)
    requires i < 4
    ensures c.Plus(NearestDirs[i]).y >= c.y
  {
  }

  lemma SearchVisit(g: Grid, s: Pos, q: seq<Pos>, visited: set<Pos>, done: set<Pos>, c: Pos, n: Pos)
    requires SearchInv(g, s, q, visited, done, Some(c))
    requires InGrid(g, n) && At(g, n) == Wall && n.y >= s.y
    ensures SearchInv(g, s, q + [n], visited + {n}, done, Some(c))
  {
  }

  lemma SearchFinish(g: Grid, s: Pos, q: seq<Pos>, visited: set<Pos>, done: set<Pos>, c: Pos)
    requires SearchInv(g, s, q, visited, done, Some(c))
    requires forall j :: 0 <= j < 4 && InGrid(g, c.Plus(NearestDirs[j])) ==> c.Plus(NearestDirs[j]) in visited
    ensures SearchInv(g, s, q, visited, done, None)
  {
  }

  /** A set holding `s` and closed under in-grid right and left moves holds `s`'s whole row. */
  lemma {:induction false} RowCovered(g: Grid, s: Pos, visited: set<Pos>, x: int)
    requires Rectangular(g) && InGrid(g, s) && s in visited && Spread(g, visited, None, visited)
    requires 0 <= x < |g[0]|
    ensures Pos(x, s.y) in visited
    decreases if x >= s.x then x - s.x else s.x - x
  {
    if x > s.x {
      RowCovered(g, s, visited, x - 1);
      assert Pos(x - 1, s.y).Plus(NearestDirs[0]) == Pos(x, s.y);
    } else if x < s.x {
      RowCovered(g, s, visited, x + 1);
      assert Pos(x + 1, s.y).Plus(NearestDirs[1]) == Pos(x, s.y);
    }
  }

  /** A set holding `s` and closed under in-grid right, left and down moves holds every cell at or below `s`'s row. */
  lemma {:induction false} RegionCovered(g: Grid, s: Pos, visited: set<Pos>, p: Pos)
    requires Rectangular(g) && InGrid(g, s) && s in visited && Spread(g, visited, None, visited)
    requires InGrid(g, p) && p.y >= s.y
    ensures p in visited
    decreases p.y - s.y
  {
    if p.y == s.y {
      RowCovered(g, s, visited, p.x);
    } else {
      var above := Pos(p.x, p.y - 1);
      RegionCovered(g, s, visited, above);
      assert above.Plus(NearestDirs[2]) == p;
    }
  }

  /** A search from a grid cell that runs dry has seen only walls at and below the start row. */
  lemma SearchExhausted(g: Grid, s: Pos, visited: set<Pos>, done: set<Pos>)
    requires Rectangular(g) && InGrid(g, s) && SearchInv(g, s, [], visited, done, None)
    ensures forall p :: Walkable(g, p) ==> p.y < s.y
  {
    forall p | Walkable(g, p) && p.y >= s.y
      ensures false
    {
      RegionCovered(g, s, visited, p);
    }
  }

  /**
   * `find_nearest_walkable_global`: `(x, y)` itself when it is a walkable cell;
   * otherwise the first walkable cell met by a breadth-first search that moves
   * right, left and down; the centre `(cols / 2, rows / 2)` when there is none.
   */
  method NearestWalkable(maze: Grid, x: int, y: int) returns (r: Pos)
    requires Rectangular(maze)
    ensures Walkable(maze, Pos(x, y)) ==> r == Pos(x, y)
    ensures r == Pos(|maze[0]| / 2, |maze| / 2) || (Walkable(maze, r) && r.y >= y)
    ensures InGrid(maze, Pos(x, y)) && (exists p :: Walkable(maze, p) && p.y >= y) ==> Walkable(maze, r) && r.y >= y
  {
    var rows, cols := |maze|, |maze[0]|;
    var s := Pos(x, y);
    OpenIsWalkable(maze, s);
    if Open(maze, s) {
      return s;
    }
    var q := [s];
    var visited := {s};
    ghost var done: set<Pos> := {};
    while |q| > 0
      invariant SearchInv(maze, s, q, visited, done, None)
      decreases AllCells(maze) - visited, |q|
    {
      SearchPop(maze, s, q, visited, done);
      var c := q[0];
      q := q[1..];
      done := done + {c};
      ghost var visited0 := visited;
      var found;
      found, q, visited := SearchAround(maze, s, c, q, visited, done);
      if found.Some? {
        return found.value;
      }
      if visited != visited0 {
        UndiscoveredShrinks(AllCells(maze), s, visited0, visited);
      }
    }
    if InGrid(maze, s) {
      SearchExhausted(maze, s, visited, done);
    }
    r := Pos(cols / 2, rows / 2);
  }

  /**
   * The inner loop of `find_nearest_walkable_global` for the cell `c`: its
   * neighbours are tried in the search's order; the first unvisited walkable one
   * is the answer, and unvisited walls are queued.
   */
  method SearchAround(maze: Grid, s: Pos, c: Pos, q0: seq<Pos>, visited0: set<Pos>, ghost done: set<Pos>)
    returns (found: Option<Pos>, q: seq<Pos>, visited: set<Pos>)
    requires Rectangular(maze) && SearchInv(maze, s, q0, visited0, done, Some(c)) && c in done
    ensures found.Some? ==> Walkable(maze, found.value) && found.value.y >= s.y
    ensures found.None? ==> SearchInv(maze, s, q, visited, done, None)
    ensures found.None? ==> visited0 <= visited && (visited == visited0 ==> q == q0)
  {
    var rows, cols := |maze|, |maze[0]|;
    q, visited := q0, visited0;
    for i := 0 to 4
      invariant SearchInv(maze, s, q, visited, done, Some(c))
      invariant forall j :: 0 <= j < i && InGrid(maze, c.Plus(NearestDirs[j])) ==> c.Plus(NearestDirs[j]) in visited
      invariant visited0 <= visited && (visited == visited0 ==> q == q0)
    {
      var n := c.Plus(NearestDirs[i]);
      NoUpMove(c, i);
      if 0 <= n.x < cols && 0 <= n.y < rows && n !in visited {
        if maze[n.y][n.x] != Wall {
          return Some(n), q, visited;
        }
        SearchVisit(maze, s, q, visited, done, c, n);
        visited := visited + {n};
        q := q + [n];
      }
    }
    SearchFinish(maze, s, q, visited, done, c);
    found := None;
  }
}
