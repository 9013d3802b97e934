/**
 * The rules of the classic Pac-Man (`Pro03/Pacman.py`) that do not depend on any
 * object: the board's shape and its wrap-around edges, the cells an entity may
 * enter, the ghosts' targets and their greedy choice of direction, the ghosts'
 * modes, and the global clock that alternates scatter and chase phases.
 */
module ClassicRules {
  import opened Grid

  // ----- constants -----

  const Rows: int := 31
  const Cols: int := 28
  /** Length, in ticks, of a scatter phase and of a chase phase of the global clock. */
  const ScatterTime: nat := 420
  const ChaseTime: nat := 1200
  /** The player and the ghosts move on every sixth tick. */
  const MoveEvery: nat := 6
  /** Ghost updates a ghost stays vulnerable after a power pellet. */
  const VulnerableTicks: int := 500
  const StartLives: int := 3
  /** Points for eating a vulnerable ghost. */
  const GhostPoints: nat := 200
  const PlayerHome: Pos := Pos(13, 22)
  /** Target of an eaten ghost (inside the house) and of an exiting one (at its door). */
  const HouseInside: Pos := Pos(13, 14)
  const HouseDoor: Pos := Pos(13, 11)

  datatype Name = Vermelho | Rosa | Ciano
  datatype Mode = Scatter | Chase | Vulnerable | Eaten | Exiting
  datatype Key = Left | Right | Up | Down | OtherKey
  datatype Event = Quit | KeyDown(key: Key) | OtherEvent

  /** The ghosts in the order they are created, collide and move. */
  const Names: seq<Name> := [Vermelho, Rosa, Ciano]

  /** The corner each ghost heads for while scattering. */
  function ScatterTarget(n: Name): Pos
  {
    match n
    case Vermelho => Pos(Cols - 2, 1)
    case Rosa => Pos(1, 1)
    case Ciano => Pos(Cols - 2, Rows - 3)
  }

  function StartCell(n: Name): (p: Pos)
    ensures OnBoard(p)
  {
    match n
    case Vermelho => Pos(13, 11)
    case Rosa => Pos(13, 14)
    case Ciano => Pos(11, 14)
  }

  /** After a lost life the red ghost scatters at once; the others first leave the house. */
  function RestartMode(n: Name): Mode
  {
    if n == Vermelho then Scatter else Exiting
  }

  /** The heading an arrow key sets. */
  function KeyDir(k: Key): Pos
    requires k != OtherKey
  {
    match k
    case Left => Pos(-1, 0)
    case Right => Pos(1, 0)
    case Up => Pos(0, -1)
    case Down => Pos(0, 1)
  }

  // ----- the board -----

  predicate OnBoard(p: Pos)
  {
    0 <= p.x < Cols && 0 <= p.y < Rows
  }

  /** Rows rows of Cols cells: the shape every index of the program assumes. */
  predicate Shaped(g: Grid)
  {
    |g| == Rows && forall y :: 0 <= y < Rows ==> |g[y]| == Cols
  }

  /** The cells an entity may enter: empty, pellet, power pellet and the house door. */
  predicate Open(c: int)
  {
    c == Empty || c == Pellet || c == PowerPellet || c == HouseCentre
  }

  /** The edge test after a move: one step past an edge lands on the opposite edge. */
  function Wrap(v: int, n: int): (r: int)
    requires n > 0
    ensures 0 <= r < n
    ensures -1 <= v <= n ==> r == v % n
  {
    if v < 0 then n - 1 else if v >= n then 0 else v
  }

  /** The cell one move `d` away from `p` on the wrap-around board. */
  function WrapStep(p: Pos, d: Pos): (q: Pos)
    ensures OnBoard(q)
  {
    Pos(Wrap(p.x + d.x, Cols), Wrap(p.y + d.y, Rows))
  }

  function Reverse(d: Pos): Pos
  {
    Pos(-d.x, -d.y)
  }

  /** The wrap-around board is a torus: a unit move is undone by the opposite move. */
  lemma WrapStepBack(p: Pos, d: Pos)
    requires OnBoard(p) && IsUnit(d)
    ensures WrapStep(WrapStep(p, d), Reverse(d)) == p
  {
    var q := WrapStep(p, d);
    if d == Pos(1, 0) {
      assert q == Pos(if p.x == Cols - 1 then 0 else p.x + 1, p.y);
    } else if d == Pos(-1, 0) {
      assert q == Pos(if p.x == 0 then Cols - 1 else p.x - 1, p.y);
    } else if d == Pos(0, 1) {
      assert q == Pos(p.x, if p.y == Rows - 1 then 0 else p.y + 1);
    } else {
      assert q == Pos(p.x, if p.y == 0 then Rows - 1 else p.y - 1);
    }
  }

  // ----- a ghost's choice of direction -----

  /** The directions a ghost tries, in this order: up, right, down, left. */
  const Dirs: seq<Pos> := [Pos(0, -1), Pos(1, 0), Pos(0, 1), Pos(-1, 0)]

  function DirIndex(m: Pos): (i: nat)
    requires m in Dirs
    ensures i < |Dirs| && Dirs[i] == m
  {
    if m == Dirs[0] then 0 else if m == Dirs[1] then 1 else if m == Dirs[2] then 2 else 3
  }

  /**
   * A ghost at `p` heading `d` may take move `m` when it does not reverse, and the
   * cell it leads to lies on the board (no wrap here) and is open.
   */
  predicate Allowed(maze: Grid, p: Pos, d: Pos, m: Pos)
    requires Shaped(maze)
  {
    m != Reverse(d) && OnBoard(p.Plus(m)) && Open(At(maze, p.Plus(m)))
  }

  /** No direction is allowed: the ghost turns back. */
  predicate Stuck(maze: Grid, p: Pos, d: Pos)
    requires Shaped(maze)
  {
    forall i :: 0 <= i < |Dirs| ==> !Allowed(maze, p, d, Dirs[i])
  }

  /** Squared distance to the target after move `m`; it orders moves as the Euclidean distance does. */
  function MoveDist(p: Pos, t: Pos, m: Pos): int
  {
    (p.x + m.x - t.x) * (p.x + m.x - t.x) + (p.y + m.y - t.y) * (p.y + m.y - t.y)
  }

  /** Key `a` beats key `b`: strictly smaller when approaching, strictly larger when fleeing. */
  predicate Beats(far: bool, a: int, b: int)
  {
    if far then a > b else a < b
  }

  /**
   * The index `min` (or, when fleeing, `max`) returns over `moves`: a move no other
   * move beats, and the first such one.
   */
  function PickIndex(moves: seq<Pos>, p: Pos, t: Pos, far: bool): (i: nat)
    requires |moves| > 0
    ensures i < |moves|
    ensures forall j :: 0 <= j < |moves| ==> !Beats(far, MoveDist(p, t, moves[j]), MoveDist(p, t, moves[i]))
    ensures forall j :: 0 <= j < i ==> Beats(far, MoveDist(p, t, moves[i]), MoveDist(p, t, moves[j]))
    decreases |moves|
  {
    if |moves| == 1 then 0
    else
      var i := PickIndex(moves[..|moves| - 1], p, t, far);
      if Beats(far, MoveDist(p, t, moves[|moves| - 1]), MoveDist(p, t, moves[i])) then |moves| - 1 else i
  }

  /**
   * `m` is the direction a ghost takes when it is not stuck: allowed, beaten by no
   * allowed direction, and beating every allowed direction tried before it.
   */
  predicate Chosen(maze: Grid, p: Pos, d: Pos, t: Pos, far: bool, m: Pos)
    requires Shaped(maze)
  {
    && m in Dirs
    && Allowed(maze, p, d, m)
    && (forall i :: 0 <= i < |Dirs| && Allowed(maze, p, d, Dirs[i]) ==>
          !Beats(far, MoveDist(p, t, Dirs[i]), MoveDist(p, t, m)))
    && (forall i :: 0 <= i < DirIndex(m) && Allowed(maze, p, d, Dirs[i]) ==>
          Beats(far, MoveDist(p, t, m), MoveDist(p, t, Dirs[i])))
  }

  /** `h` is the heading a ghost at `p` heading `d` takes towards `t`: the chosen direction, or back when stuck. */
  predicate Steered(maze: Grid, p: Pos, d: Pos, t: Pos, far: bool, h: Pos)
    requires Shaped(maze)
  {
    if Stuck(maze, p, d) then h == Reverse(d) else Chosen(maze, p, d, t, far, h)
  }

  /** The choice is determined: two chosen directions are the same. */
  lemma ChosenUnique(maze: Grid, p: Pos, d: Pos, t: Pos, far: bool, m1: Pos, m2: Pos)
    requires Shaped(maze)
    requires Chosen(maze, p, d, t, far, m1) && Chosen(maze, p, d, t, far, m2)
    ensures m1 == m2
  {
  }

  /** The allowed directions listed in the order they are tried. */
  predicate Candidates(maze: Grid, p: Pos, d: Pos, moves: seq<Pos>)
    requires Shaped(maze)
  {
    && (forall i :: 0 <= i < |moves| ==> moves[i] in Dirs)
    && (forall i :: 0 <= i < |Dirs| ==> (Dirs[i] in moves <==> Allowed(maze, p, d, Dirs[i])))
    && (forall i, j :: 0 <= i < j < |moves| ==> DirIndex(moves[i]) < DirIndex(moves[j]))
  }

  /** Picking over the candidate list yields the chosen direction. */
  lemma PickIsChosen(maze: Grid, p: Pos, d: Pos, t: Pos, far: bool, moves: seq<Pos>)
    requires Shaped(maze) && Candidates(maze, p, d, moves) && |moves| > 0
    ensures Chosen(maze, p, d, t, far, moves[PickIndex(moves, p, t, far)])
  {
    var k := PickIndex(moves, p, t, far);
    var m := moves[k];
    forall i | 0 <= i < |Dirs| && Allowed(maze, p, d, Dirs[i])
      ensures !Beats(far, MoveDist(p, t, Dirs[i]), MoveDist(p, t, m))
    {
      assert Dirs[i] in moves;
      var j :| 0 <= j < |moves| && moves[j] == Dirs[i];
    }
    forall i | 0 <= i < DirIndex(m) && Allowed(maze, p, d, Dirs[i])
      ensures Beats(far, MoveDist(p, t, m), MoveDist(p, t, Dirs[i]))
    {
      assert Dirs[i] in moves;
      var j :| 0 <= j < |moves| && moves[j] == Dirs[i];
      assert DirIndex(moves[j]) == i;
      if k < j {
        assert false;
      }
    }
  }

  /** An empty candidate list means the ghost is stuck. */
  lemma NoCandidatesStuck(maze: Grid, p: Pos, d: Pos, moves: seq<Pos>)
    requires Shaped(maze) && Candidates(maze, p, d, moves) && |moves| == 0
    ensures Stuck(maze, p, d)
  {
    forall i | 0 <= i < |Dirs|
      ensures !Allowed(maze, p, d, Dirs[i])
    {
      assert Dirs[i] !in moves;
    }
  }

  // ----- a ghost's mode -----

  /**
   * The target a ghost steers for in each mode: the player when chasing (and, to
   * flee it, when vulnerable), its corner when scattering, the house when eaten
   * and the house door when leaving.
   */
  function Target(mode: Mode, n: Name, player: Pos): (t: Pos)
    ensures OnBoard(player) ==> OnBoard(t)
  {
    match mode
    case Chase => player
    case Scatter => ScatterTarget(n)
    case Vulnerable => player
    case Eaten => HouseInside
    case Exiting => HouseDoor
  }

  /**
   * The mode at the start of a ghost's update: a vulnerable ghost counts its timer
   * down and takes the global mode when it runs out, an eaten or exiting ghost keeps
   * its mode, and any other ghost follows the global clock.
   */
  function Retune(mode: Mode, timer: int, global: Mode): (r: Mode)
    ensures global != Vulnerable ==> (r == Vulnerable <==> mode == Vulnerable && timer - 1 > 0)
    ensures global != Eaten && global != Exiting ==>
              (r == Eaten <==> mode == Eaten) && (r == Exiting <==> mode == Exiting)
    ensures r == mode || r == global
  {
    if mode == Vulnerable then (if timer - 1 <= 0 then global else Vulnerable)
    else if mode == Eaten || mode == Exiting then mode
    else global
  }

  /** The mode after a move: an exiting ghost at the door scatters, an eaten ghost home again leaves. */
  function Arrive(mode: Mode, c: Pos): (r: Mode)
    ensures mode != Exiting && mode != Eaten ==> r == mode
    ensures r != mode ==> (mode == Exiting && r == Scatter && c == HouseDoor) || (mode == Eaten && r == Exiting && c == HouseInside)
  {
    if mode == Exiting && c == HouseDoor then Scatter
    else if mode == Eaten && c == HouseInside then Exiting
    else mode
  }

  /** What a ghost's update acts on: its mode, vulnerability timer, cell and heading. */
  datatype Sprite = Sprite(mode: Mode, timer: int, cell: Pos, heading: Pos)

  /** What a power pellet does to a ghost: unless eaten, it turns vulnerable for a while and reverses. */
  function Frighten(a: Sprite): (b: Sprite)
    ensures b.cell == a.cell
    ensures IsUnit(a.heading) ==> IsUnit(b.heading)
    ensures b.mode == Eaten <==> a.mode == Eaten
    ensures b.mode != Eaten ==> b.mode == Vulnerable
  {
    if a.mode == Eaten then a else Sprite(Vulnerable, VulnerableTicks, a.cell, Reverse(a.heading))
  }

  /** `b` is one wrapped unit step on from `a`, along `b`'s heading. */
  predicate Stepped(a: Sprite, b: Sprite)
  {
    OnBoard(b.cell) && IsUnit(b.heading) && b.cell == WrapStep(a.cell, b.heading)
  }

  /**
   * `b` is what an update leaves of ghost `n` in state `a`: the timer counted down
   * if it was vulnerable, the heading steered towards the target of its retuned
   * mode, one wrapped step, then the house transitions.
   */
  predicate Moved(maze: Grid, player: Pos, global: Mode, n: Name, a: Sprite, b: Sprite)
    requires Shaped(maze)
  {
    var r := Retune(a.mode, a.timer, global);
    && b.timer == (if a.mode == Vulnerable then a.timer - 1 else a.timer)
    && Steered(maze, a.cell, a.heading, Target(r, n, player), r == Vulnerable, b.heading)
    && b.cell == WrapStep(a.cell, b.heading)
    && b.mode == Arrive(r, b.cell)
  }

  /** The mode and timer of a vulnerable ghost after `k` updates under a steady global mode. */
  function Countdown(mode: Mode, timer: int, global: Mode, k: nat): (Mode, int)
    decreases k
  {
    if k == 0 then (mode, timer)
    else
      var m := Retune(mode, timer, global);
      Countdown(m, if mode == Vulnerable then timer - 1 else timer, global, k - 1)
  }

  /** A ghost made vulnerable stays so for fewer updates than its timer ... */
  lemma {:induction false} FrightLasts(timer: int, global: Mode, k: nat)
    requires global != Vulnerable && k < timer
    ensures Countdown(Vulnerable, timer, global, k) == (Vulnerable, timer - k)
  {
    if k > 0 {
      FrightLasts(timer - 1, global, k - 1);
    }
  }

  /** ... and takes the global mode at the update that empties it. */
  lemma FrightEnds(global: Mode)
    requires global == Scatter || global == Chase
    ensures Countdown(Vulnerable, VulnerableTicks, global, VulnerableTicks as nat) == (global, 0)
  {
    FrightLasts(VulnerableTicks, global, VulnerableTicks as nat - 1);
    CountdownSplit(Vulnerable, VulnerableTicks, global, VulnerableTicks as nat - 1, 1);
  }

  lemma {:induction false} CountdownSplit(mode: Mode, timer: int, global: Mode, a: nat, b: nat)
    ensures Countdown(mode, timer, global, a + b)
         == var (m, t) := Countdown(mode, timer, global, a); Countdown(m, t, global, b)
    decreases a
  {
    if a > 0 {
      var m := Retune(mode, timer, global);
      CountdownSplit(m, if mode == Vulnerable then timer - 1 else timer, global, a - 1, b);
    }
  }

  // ----- the global clock -----

  /** How long a phase of the global clock lasts. */
  function Phase(mode: Mode): nat
  {
    if mode == Scatter then ScatterTime else ChaseTime
  }

  /** The clock is in one of its two phases, not past its length. */
  predicate ClockOk(mode: Mode, timer: nat)
  {
    (mode == Scatter || mode == Chase) && timer <= Phase(mode)
  }

  /** One tick: the timer counts up and a phase that outlasts its length flips to the other one. */
  function Clock(mode: Mode, timer: nat): (r: (Mode, nat))
    requires ClockOk(mode, timer)
    ensures ClockOk(r.0, r.1)
    ensures r.0 != mode <==> timer == Phase(mode)
  {
    if mode == Scatter && timer + 1 > ScatterTime then (Chase, 0)
    else if mode == Chase && timer + 1 > ChaseTime then (Scatter, 0)
    else (mode, timer + 1)
  }

  function Clocks(mode: Mode, timer: nat, k: nat): (r: (Mode, nat))
    requires ClockOk(mode, timer)
    ensures ClockOk(r.0, r.1)
    decreases k
  {
    if k == 0 then (mode, timer) else var (m, t) := Clock(mode, timer); Clocks(m, t, k - 1)
  }

  lemma {:induction false} ClocksSplit(mode: Mode, timer: nat, a: nat, b: nat)
    requires ClockOk(mode, timer)
    ensures Clocks(mode, timer, a + b) == var (m, t) := Clocks(mode, timer, a); Clocks(m, t, b)
    decreases a
  {
    if a > 0 {
      var (m, t) := Clock(mode, timer);
      ClocksSplit(m, t, a - 1, b);
    }
  }

  /** Within a phase the clock only counts. */
  lemma {:induction false} WithinPhase(mode: Mode, timer: nat, k: nat)
    requires ClockOk(mode, timer) && timer + k <= Phase(mode)
    ensures Clocks(mode, timer, k) == (mode, timer + k)
    decreases k
  {
    if k > 0 {
      WithinPhase(mode, timer + 1, k - 1);
    }
  }

  /** A phase of length L takes L + 1 ticks to flip, and a full cycle takes 1622 ticks. */
  lemma ClockCycle()
    ensures Clocks(Scatter, 0, ScatterTime + 1) == (Chase, 0)
    ensures Clocks(Chase, 0, ChaseTime + 1) == (Scatter, 0)
    ensures Clocks(Scatter, 0, ScatterTime + 1 + ChaseTime + 1) == (Scatter, 0)
  {
    WithinPhase(Scatter, 0, ScatterTime);
    ClocksSplit(Scatter, 0, ScatterTime, 1);
    WithinPhase(Chase, 0, ChaseTime);
    ClocksSplit(Chase, 0, ChaseTime, 1);
    ClocksSplit(Scatter, 0, ScatterTime + 1, ChaseTime + 1);
  }
}
