/** The probabilistic maze generator: starting from one cell it grows ROOM cells
    breadth-first. Each UNVISITED 4-neighbour of a dequeued room becomes ROOM or WALL
    by a random draw weighed against a probability that rises with the neighbour's
    rank and falls with the rooms already around it, and only when at most one
    room touches it. Finally every cell still UNVISITED becomes WALL.

    Randomness is injected: `rand(n)` is the n-th value of random.random(),
    `order(n)` is the direction order of the n-th weighted shuffle, and the
    randint start coordinates are arguments of Generate. */
module MazeGenerator {
  import opened Outcomes
  import opened Cells
  import RoomTree
  import MazeConfig
  import Text

  /** The rank part of calculate_room_probability: (index + 1) / total, or the
      configured factor when there are no neighbours. */
  function BaseProb(baseProbFactor: real, neighborIndex: nat, totalNeighbors: nat): (b: real)
    ensures totalNeighbors == 0 ==> b == baseProbFactor
    ensures neighborIndex < totalNeighbors ==> 0.0 < b <= 1.0
    ensures neighborIndex + 1 == totalNeighbors ==> b == 1.0
  {
    if totalNeighbors > 0 then (neighborIndex + 1) as real / totalNeighbors as real else baseProbFactor
  }

  /** max(min_room_prob, base_prob - decay_factor * adjacent_rooms). */
  function RoomProbability(baseProbFactor: real, decayFactor: real, minRoomProb: real,
                           neighborIndex: nat, totalNeighbors: nat, adjacentRooms: int): (p: real)
    ensures p >= minRoomProb
    ensures p >= BaseProb(baseProbFactor, neighborIndex, totalNeighbors) - decayFactor * adjacentRooms as real
    ensures p == minRoomProb
         || p == BaseProb(baseProbFactor, neighborIndex, totalNeighbors) - decayFactor * adjacentRooms as real
  {
    var candidate := BaseProb(baseProbFactor, neighborIndex, totalNeighbors) - decayFactor * adjacentRooms as real;
    if candidate > minRoomProb then candidate else minRoomProb
  }

  /** More rooms around a cell never raise its probability. */
  lemma MoreRoomsLessLikely(baseProbFactor: real, decayFactor: real, minRoomProb: real,
                            neighborIndex: nat, totalNeighbors: nat, fewer: int, more: int)
    requires decayFactor >= 0.0 && fewer <= more
    ensures RoomProbability(baseProbFactor, decayFactor, minRoomProb, neighborIndex, totalNeighbors, more)
         <= RoomProbability(baseProbFactor, decayFactor, minRoomProb, neighborIndex, totalNeighbors, fewer)
  {
    assert decayFactor * more as real >= decayFactor * fewer as real by {
      assert decayFactor * (more - fewer) as real >= 0.0;
    }
  }

  /** Among the neighbours found from one cell, later ones are at least as likely. */
  lemma LaterNeighbourMoreLikely(baseProbFactor: real, decayFactor: real, minRoomProb: real,
                                 earlier: nat, later: nat, totalNeighbors: nat, adjacentRooms: int)
    requires earlier <= later < totalNeighbors
    ensures RoomProbability(baseProbFactor, decayFactor, minRoomProb, earlier, totalNeighbors, adjacentRooms)
         <= RoomProbability(baseProbFactor, decayFactor, minRoomProb, later, totalNeighbors, adjacentRooms)
  {
    var t := totalNeighbors as real;
    assert (earlier + 1) as real / t <= (later + 1) as real / t by {
      assert (later + 1) as real / t - (earlier + 1) as real / t == (later - earlier) as real / t;
    }
  }

  /** The last neighbour found, touching no room but the cell it was found from,
      is certain to become a room unless regions forbid it: every draw is below 1. */
  lemma LastLoneNeighbourCertain(baseProbFactor: real, decayFactor: real, minRoomProb: real,
                                 neighborIndex: nat, totalNeighbors: nat)
    requires neighborIndex + 1 == totalNeighbors
    ensures RoomProbability(baseProbFactor, decayFactor, minRoomProb, neighborIndex, totalNeighbors, 0) >= 1.0
  {
  }

  /** Cell codes after finalize_maze: UNVISITED becomes WALL, any other code stays. */
  function Finalized(c: int): (r: int)
    ensures r != UNVISITED
    ensures c != UNVISITED ==> r == c
    ensures r == ROOM <==> c == ROOM
  {
    if c == UNVISITED then WALL else c
  }

  /** The weights of the four directions are positive (weighted_shuffle divides by them). */
  predicate PositiveDirectionWeights(w: MazeConfig.Weights) {
    forall i :: 0 <= i < |w| && w[i].0 in MazeConfig.RequiredKeys ==> w[i].1 > 0.0
  }

  /** `config or MazeConfig()`. */
  function ConfigOf(config: Option<MazeConfig.Settings>): (s: MazeConfig.Settings)
    ensures config.None? ==> s == MazeConfig.Defaults
    ensures config.Some? ==> s == config.value
  {
    if config.Some? then config.value else MazeConfig.Defaults
  }

  /** A list of distinct grid positions has at most height * width entries, and
      exactly that many when it covers the grid. */
  lemma CardBound(cells: seq<Pos>, height: nat, width: nat)
    requires Distinct(cells)
    requires forall k :: 0 <= k < |cells| ==> InGrid(height, width, cells[k])
    ensures |cells| <= height * width
    ensures (forall i, j :: 0 <= i < height && 0 <= j < width ==> (i, j) in cells) ==> |cells| == height * width
  {
    DistinctCard(cells);
    AllCellsCard(height, width);
    var s := set q | q in cells;
    assert s <= AllCells(height, width) by {
      forall q | q in s ensures q in AllCells(height, width) {
        assert q == (q.0, q.1);
      }
    }
    SubsetCard(s, AllCells(height, width));
    if forall i, j :: 0 <= i < height && 0 <= j < width ==> (i, j) in cells {
      assert AllCells(height, width) <= s;
      SubsetCard(AllCells(height, width), s);
    }
  }

  lemma {:induction false} SubsetCard<T>(a: set<T>, b: set<T>)
    requires a <= b
    ensures |a| <= |b|
    ensures |a| == |b| ==> a == b
  {
    if a != {} {
      var x :| x in a;
      SubsetCard(a - {x}, b - {x});
    } else if b != {} {
      var y :| y in b;
      assert |b| == |b - {y}| + 1;
    }
  }

  lemma DistinctAppend(a: seq<Pos>, b: seq<Pos>)
    requires Distinct(a) && Distinct(b)
    requires forall k :: 0 <= k < |a| ==> a[k] !in b
    ensures Distinct(a + b)
  {
    var c := a + b;
    forall i, j | 0 <= i < j < |c| ensures c[i] != c[j] {
      if j >= |a| && i < |a| {
        assert c[j] == b[j - |a|];
      }
    }
  }

  /** A new room whose only room neighbour is the cell it was found from, cell
      head - 1 of the tree, has that cell as its single earlier neighbour. */
  lemma NewRoomLink(g: seq<seq<int>>, tree: seq<Pos>, head: nat, p: Pos)
    requires 0 < head <= |tree| && Distinct(tree)
    requires forall k :: 0 <= k < |tree| ==> HasCode(g, tree[k], ROOM)
    requires Adjacent(tree[head - 1], p)
    requires |NeighborsWith(g, p, AllDirections, ROOM)| <= 1
    ensures RoomTree.ParentLink(tree + [p], |tree|, head - 1)
  {
    var ns := NeighborsWith(g, p, AllDirections, ROOM);
    AllDirectionsIsOrder();
    NeighborsWithFacts(g, p, AllDirections, ROOM);
    AdjacentSymmetric(tree[head - 1], p);
    assert tree[head - 1] in ns;
    var t := tree + [p];
    forall i | 0 <= i < |tree| && i != head - 1 ensures !Adjacent(t[i], t[|tree|]) {
    }
  }

  /** No two cells of the set are 4-adjacent. */
  predicate Apart(cells: set<Pos>) {
    forall a, b :: a in cells && b in cells ==> !Adjacent(a, b)
  }

  /** ps walks from start by 4-adjacent steps, every cell after the first in allowed. */
  ghost predicate IsWalk(ps: seq<Pos>, start: Pos, allowed: set<Pos>) {
    |ps| >= 1 && ps[0] == start
    && forall k :: 1 <= k < |ps| ==> ps[k] in allowed && Adjacent(ps[k - 1], ps[k])
  }

  /** a can be reached from start by such a walk. */
  ghost predicate Reaches(start: Pos, a: Pos, allowed: set<Pos>) {
    exists ps :: IsWalk(ps, start, allowed) && ps[|ps| - 1] == a
  }

  lemma WalkExtend(ps: seq<Pos>, start: Pos, allowed: set<Pos>, b: Pos)
    requires IsWalk(ps, start, allowed) && b in allowed && Adjacent(ps[|ps| - 1], b)
    ensures IsWalk(ps + [b], start, allowed) && Reaches(start, b, allowed)
  {
    var qs := ps + [b];
    assert qs[|qs| - 1] == b;
  }

  lemma RestStep(all: set<Pos>, rest: set<Pos>, pos: Pos)
    requires rest <= all && pos in rest
    ensures pos !in all - rest
    ensures all - (rest - {pos}) == (all - rest) + {pos}
  {
  }

  /** A cell of the row view of an array holds code exactly when the array cell does. */
  lemma HasCodeAt(a: array2<int>, q: Pos, code: int)
    ensures HasCode(Rows(a), q, code) <==> (0 <= q.0 < a.Length0 && 0 <= q.1 < a.Length1 && a[q.0, q.1] == code)
  {
  }

  lemma AdjacentSymmetric(p: Pos, q: Pos)
    requires Adjacent(p, q)
    ensures Adjacent(q, p)
  {
  }

  /** g is a height x width grid. */
  predicate IsGrid(g: seq<seq<int>>, height: nat, width: nat) {
    |g| == height && forall i :: 0 <= i < height ==> |g[i]| == width
  }

  /** Every cell of `cells` is in the grid and holds code. */
  predicate PlacedIn(g: seq<seq<int>>, cells: seq<Pos>, code: int) {
    forall k :: 0 <= k < |cells| ==> HasCode(g, cells[k], code)
  }

  /** Every cell that is no longer UNVISITED is listed in a or b. */
  predicate CoveredIn(g: seq<seq<int>>, a: seq<Pos>, b: seq<Pos>) {
    forall i, j :: 0 <= i < |g| && 0 <= j < |g[i]| && g[i][j] != UNVISITED ==> (i, j) in a || (i, j) in b
  }

  /** The ROOM cells of a grid. */
  function RoomCellsOf(g: seq<seq<int>>): set<Pos> {
    set i, j | 0 <= i < |g| && 0 <= j < |g[i]| && g[i][j] == ROOM :: (i, j)
  }

  /** What a generation run has built on grid g: the room tree in creation
      order, the cells it made WALL, and, from an all-UNVISITED start, nothing
      else touched. */
  predicate GrownIn(g: seq<seq<int>>, height: nat, width: nat, tree: seq<Pos>, parent: seq<nat>,
                    made: seq<Pos>, untouched: bool) {
    IsGrid(g, height, width)
    && RoomTree.IsRoomTree(tree, parent) && Distinct(made)
    && PlacedIn(g, tree, ROOM) && PlacedIn(g, made, WALL)
    && (untouched ==> CoveredIn(g, tree, made))
    && |tree| + |made| <= height * width
  }

  lemma PlacedAfterWrite(g: seq<seq<int>>, cells: seq<Pos>, code: int, p: Pos, c: int)
    requires 0 <= p.0 < |g| && 0 <= p.1 < |g[p.0]|
    requires PlacedIn(g, cells, code) && p !in cells
    ensures PlacedIn(Write(g, p, c), cells, code)
  {
    forall k | 0 <= k < |cells| ensures HasCode(Write(g, p, c), cells[k], code) {
      assert cells[k] != p;
    }
  }

  lemma PlacedCells(g: seq<seq<int>>, cells: seq<Pos>, code: int, height: nat, width: nat)
    requires IsGrid(g, height, width) && PlacedIn(g, cells, code)
    ensures forall k :: 0 <= k < |cells| ==> InGrid(height, width, cells[k])
  {
  }

  /** Generation starts by making the start cell ROOM. */
  lemma StartGrown(g: seq<seq<int>>, height: nat, width: nat, start: Pos, untouched: bool)
    requires IsGrid(g, height, width) && InGrid(height, width, start)
    requires untouched ==> forall i, j :: 0 <= i < height && 0 <= j < width ==> g[i][j] == UNVISITED
    ensures GrownIn(Write(g, start, ROOM), height, width, [start], [0], [], untouched)
  {
    CardBound([start], height, width);
  }

  /** Deciding ROOM for an UNVISITED neighbour of tree cell head - 1 that touches
      at most one room extends the tree by that cell. */
  lemma DecideRoom(g: seq<seq<int>>, height: nat, width: nat, tree: seq<Pos>, parent: seq<nat>,
                   made: seq<Pos>, untouched: bool, head: nat, p: Pos)
    requires GrownIn(g, height, width, tree, parent, made, untouched)
    requires HasCode(g, p, UNVISITED)
    requires 1 <= head <= |tree| && Adjacent(tree[head - 1], p)
    requires |NeighborsWith(g, p, AllDirections, ROOM)| <= 1
    ensures GrownIn(Write(g, p, ROOM), height, width, tree + [p], parent + [head - 1], made, untouched)
  {
    var g' := Write(g, p, ROOM);
    assert p !in tree;
    assert p !in made;
    NewRoomLink(g, tree, head, p);
    RoomTree.ExtendTree(tree, parent, p, head - 1);
    PlacedAfterWrite(g, tree, ROOM, p, ROOM);
    PlacedAfterWrite(g, made, WALL, p, ROOM);
    assert PlacedIn(g', tree + [p], ROOM);
    DistinctAppend(tree, [p]);
    PlacedCells(g', tree + [p], ROOM, height, width);
    PlacedCells(g', made, WALL, height, width);
    DistinctAppend(tree + [p], made);
    CardBound(tree + [p] + made, height, width);
  }

  /** Deciding WALL for an UNVISITED cell records it among the walls made. */
  /** The growth after the neighbour p of the cell at head - 1 became a ROOM
      (created) or a WALL. */
  lemma Decided(g: seq<seq<int>>, height: nat, width: nat, tree: seq<Pos>, parent: seq<nat>,
                made: seq<Pos>, untouched: bool, head: nat, p: Pos, created: bool)
    returns (tree': seq<Pos>, parent': seq<nat>, made': seq<Pos>)
    requires GrownIn(g, height, width, tree, parent, made, untouched)
    requires HasCode(g, p, UNVISITED)
    requires 1 <= head <= |tree| && Adjacent(tree[head - 1], p)
    requires created ==> |NeighborsWith(g, p, AllDirections, ROOM)| <= 1
    ensures GrownIn(Write(g, p, if created then ROOM else WALL), height, width, tree', parent', made', untouched)
    ensures created ==> tree' == tree + [p] && made' == made && tree'[head..] == tree[head..] + [p]
    ensures !created ==> tree' == tree && made' == made + [p]
  {
    if created {
      DecideRoom(g, height, width, tree, parent, made, untouched, head, p);
      assert (tree + [p])[head..] == tree[head..] + [p];
      tree', parent', made' := tree + [p], parent + [head - 1], made;
    } else {
      DecideWall(g, height, width, tree, parent, made, untouched, p);
      tree', parent', made' := tree, parent, made + [p];
    }
  }

  lemma DecideWall(g: seq<seq<int>>, height: nat, width: nat, tree: seq<Pos>, parent: seq<nat>,
                   made: seq<Pos>, untouched: bool, p: Pos)
    requires GrownIn(g, height, width, tree, parent, made, untouched)
    requires HasCode(g, p, UNVISITED)
    ensures GrownIn(Write(g, p, WALL), height, width, tree, parent, made + [p], untouched)
  {
    var g' := Write(g, p, WALL);
    assert p !in tree;
    assert p !in made;
    PlacedAfterWrite(g, tree, ROOM, p, WALL);
    PlacedAfterWrite(g, made, WALL, p, WALL);
    assert PlacedIn(g', made + [p], WALL);
    DistinctAppend(made, [p]);
    PlacedCells(g', tree, ROOM, height, width);
    PlacedCells(g', made + [p], WALL, height, width);
    DistinctAppend(tree, made + [p]);
    CardBound(tree + (made + [p]), height, width);
  }

  /** After finalize_maze: the tree cells are the ROOM cells of a run from an
      all-UNVISITED grid, every cell is ROOM or WALL, and the cells made ROOM
      and WALL number height * width. */
  lemma FinishRun(g: seq<seq<int>>, g': seq<seq<int>>, height: nat, width: nat, tree: seq<Pos>,
                  parent: seq<nat>, made: seq<Pos>, added: seq<Pos>, untouched: bool)
    requires GrownIn(g, height, width, tree, parent, made, untouched)
    requires IsGrid(g', height, width)
    requires forall i, j :: 0 <= i < height && 0 <= j < width ==> g'[i][j] == Finalized(g[i][j])
    requires Distinct(added) && forall q :: q in added <==> HasCode(g, q, UNVISITED)
    ensures PlacedIn(g', tree, ROOM) && PlacedIn(g', made + added, WALL)
    ensures untouched ==> forall i, j :: 0 <= i < height && 0 <= j < width ==>
      (g'[i][j] == ROOM <==> (i, j) in tree) && (g'[i][j] == ROOM || g'[i][j] == WALL)
    ensures untouched ==> |tree| + |made + added| == height * width
    ensures untouched ==> |RoomCellsOf(g')| == |tree|
  {
    assert forall k :: 0 <= k < |made| ==> made[k] !in added;
    DistinctAppend(made, added);
    var walls := made + added;
    forall k | 0 <= k < |walls| ensures HasCode(g', walls[k], WALL) {
      if k < |made| {
        assert HasCode(g, made[k], WALL);
      } else {
        assert walls[k] == added[k - |made|];
        assert HasCode(g, walls[k], UNVISITED);
      }
    }
    assert forall k :: 0 <= k < |tree| ==> tree[k] !in walls;
    DistinctAppend(tree, walls);
    PlacedCells(g', tree, ROOM, height, width);
    PlacedCells(g', walls, WALL, height, width);
    if untouched {
      forall i, j | 0 <= i < height && 0 <= j < width
        ensures (g'[i][j] == ROOM <==> (i, j) in tree) && (g'[i][j] == ROOM || g'[i][j] == WALL)
        ensures (i, j) in tree + walls
      {
        if g[i][j] == UNVISITED {
          assert HasCode(g, (i, j), UNVISITED);
        }
      }
      CardBound(tree + walls, height, width);
      assert RoomCellsOf(g') == set q | q in tree;
      DistinctCard(tree);
    }
  }

  class Generator {
    const height: nat
    const width: nat
    const decayFactor: real
    const baseProbFactor: real
    const minRoomProb: real
    const maze: array2<int>
    /** The values random.random() returns, in order. */
    const rand: nat -> real
    /** The results of the weighted direction shuffles, in order. */
    const order: nat -> seq<Direction>
    /** How many random values and shuffles have been used. */
    var draws: nat
    var shuffles: nat
    /** stats["rooms"] and stats["walls"]. */
    var rooms: int
    var walls: int

    ghost predicate Valid()
      reads this
    {
      maze.Length0 == height && maze.Length1 == width
      && (forall n :: 0.0 <= rand(n) < 1.0)
      && (forall n :: IsDirectionOrder(order(n)))
    }

    /** A generator no generation has touched yet. */
    ghost predicate Fresh()
      reads this, maze
    {
      rooms == 0 && walls == 0
      && forall i, j :: 0 <= i < maze.Length0 && 0 <= j < maze.Length1 ==> maze[i, j] == UNVISITED
    }

    /** The maze built from `config or MazeConfig()`, every cell UNVISITED. The
        direction weights must be positive: the shuffle raises to 1 / weight. */
    constructor (config: Option<MazeConfig.Settings>, rand: nat -> real, order: nat -> seq<Direction>)
      requires forall n :: 0.0 <= rand(n) < 1.0
      requires forall n :: IsDirectionOrder(order(n))
      requires config.Some? ==> MazeConfig.IsValid(config.value)
      requires PositiveDirectionWeights(ConfigOf(config).directionWeights)
      ensures Valid() && Fresh()
      ensures height == ConfigOf(config).mazeHeight && width == ConfigOf(config).mazeWidth
      ensures decayFactor == ConfigOf(config).decayFactor
      ensures baseProbFactor == ConfigOf(config).baseProbFactor
      ensures minRoomProb == ConfigOf(config).minRoomProb
      ensures this.rand == rand && this.order == order && draws == 0 && shuffles == 0
      ensures fresh(maze)
    {
      var s := ConfigOf(config);
      height := s.mazeHeight;
      width := s.mazeWidth;
      decayFactor := s.decayFactor;
      baseProbFactor := s.baseProbFactor;
      minRoomProb := s.minRoomProb;
      maze := new int[s.mazeHeight, s.mazeWidth]((i, j) => UNVISITED);
      this.rand := rand;
      this.order := order;
      draws := 0;
      shuffles := 0;
      rooms := 0;
      walls := 0;
    }

    function InBounds(x: int, y: int): (r: bool)
      ensures r <==> (x, y) in AllCells(height, width)
    {
      0 <= x < height && 0 <= y < width
    }

    /** The ROOM 4-neighbours of p in the fixed order up, down, left, right. */
    function RoomsAround(p: Pos): seq<Pos>
      reads maze
    {
      NeighborsWith(Rows(maze), p, AllDirections, ROOM)
    }

    /** The ROOM cells of the maze. */
    function RoomCells(): set<Pos>
      reads maze
    {
      set i, j | 0 <= i < maze.Length0 && 0 <= j < maze.Length1 && maze[i, j] == ROOM :: (i, j)
    }

    /** The UNVISITED 4-neighbours of (x, y) in the next shuffled direction order. */
    method GetUnvisitedNeighbors(x: int, y: int) returns (ns: seq<Pos>)
      requires Valid()
      modifies this
      ensures Valid()
      ensures shuffles == old(shuffles) + 1
      ensures draws == old(draws) && rooms == old(rooms) && walls == old(walls)
      ensures ns == NeighborsWith(Rows(maze), (x, y), order(old(shuffles)), UNVISITED)
      ensures |ns| <= 4 && Distinct(ns)
      ensures forall q :: q in ns <==>
        (InGrid(height, width, q) && maze[q.0, q.1] == UNVISITED && Adjacent((x, y), q))
    {
      var dirs := order(shuffles);
      shuffles := shuffles + 1;
      ns := ScanNeighbors(x, y, dirs, UNVISITED);
    }

    /** The cells one step from (x, y) in the directions of dirs, in that order,
        that are in bounds and hold code. */
    method ScanNeighbors(x: int, y: int, dirs: seq<Direction>, code: int) returns (ns: seq<Pos>)
      requires Valid() && IsDirectionOrder(dirs)
      ensures ns == NeighborsWith(Rows(maze), (x, y), dirs, code)
      ensures |ns| <= 4 && Distinct(ns)
      ensures forall q :: q in ns <==> (InGrid(height, width, q) && maze[q.0, q.1] == code && Adjacent((x, y), q))
    {
      ghost var g := Rows(maze);
      ns := [];
      for k := 0 to |dirs|
        invariant ns == NeighborsWith(g, (x, y), dirs[..k], code)
      {
        var d := dirs[k];
        var nx, ny := x + d.Delta().0, y + d.Delta().1;
        assert dirs[..k + 1] == dirs[..k] + [d];
        NeighborsWithSnoc(g, (x, y), dirs[..k], d, code);
        HasCodeAt(maze, (nx, ny), code);
        if InBounds(nx, ny) && maze[nx, ny] == code {
          ns := ns + [(nx, ny)];
        }
      }
      assert dirs[..|dirs|] == dirs;
      NeighborsWithFacts(g, (x, y), dirs, code);
      forall q ensures q in ns <==> (InGrid(height, width, q) && maze[q.0, q.1] == code && Adjacent((x, y), q)) {
        HasCodeAt(maze, q, code);
      }
    }

    /** The number of ROOM 4-neighbours minus one (the count starts at -1). */
    method CountAdjacentRooms(x: int, y: int) returns (count: int)
      requires Valid()
      ensures count == |RoomsAround((x, y))| - 1
      ensures -1 <= count <= 3
    {
      ghost var g := Rows(maze);
      count := -1;
      for k := 0 to |AllDirections|
        invariant count == |NeighborsWith(g, (x, y), AllDirections[..k], ROOM)| - 1
      {
        var d := AllDirections[k];
        var nx, ny := x + d.Delta().0, y + d.Delta().1;
        assert AllDirections[..k + 1] == AllDirections[..k] + [d];
        NeighborsWithSnoc(g, (x, y), AllDirections[..k], d, ROOM);
        HasCodeAt(maze, (nx, ny), ROOM);
        if InBounds(nx, ny) && maze[nx, ny] == ROOM {
          count := count + 1;
        }
      }
      assert AllDirections[..|AllDirections|] == AllDirections;
      AllDirectionsIsOrder();
      NeighborsWithFacts(g, (x, y), AllDirections, ROOM);
    }

    /** The ROOM 4-neighbours of (x, y), scanning up, down, left, right. */
    method GetRoomNeighbors(x: int, y: int) returns (ns: seq<Pos>)
      requires Valid()
      ensures ns == RoomsAround((x, y))
      ensures |ns| <= 4 && Distinct(ns)
      ensures forall q :: q in ns <==> (InGrid(height, width, q) && maze[q.0, q.1] == ROOM && Adjacent((x, y), q))
    {
      AllDirectionsIsOrder();
      ns := ScanNeighbors(x, y, AllDirections, ROOM);
    }

    /** Breadth-first marking from start through the cells of neighbors: the
        result adds start and every cell of neighbors reachable from it by
        4-adjacent steps inside neighbors. */
    method MarkRegion(start: Pos, neighbors: set<Pos>, seen: set<Pos>) returns (marked: set<Pos>)
      ensures seen + {start} <= marked <= seen + neighbors + {start}
      ensures forall a, b :: a in (marked - seen) + {start} && b in neighbors && Adjacent(a, b) ==> b in marked
      ensures start in neighbors && Apart(neighbors) ==> marked == seen + {start}
      ensures forall a :: a in marked && a !in seen ==> Reaches(start, a, neighbors - seen)
    {
      ghost var lone := start in neighbors && Apart(neighbors);
      marked := seen + {start};
      var queue := [start];
      ghost var done: set<Pos> := {};
      assert IsWalk([start], start, neighbors - seen);
      while queue != []
        invariant seen + {start} <= marked <= seen + neighbors + {start}
        invariant forall k :: 0 <= k < |queue| ==> (queue[k] in marked && queue[k] !in seen) || queue[k] == start
        invariant forall a :: (a in marked && a !in seen) || a == start ==> a in done || a in queue
        invariant forall a, b :: a in done && b in neighbors && Adjacent(a, b) ==> b in marked
        invariant forall a :: (a in marked && a !in seen) || a == start ==> Reaches(start, a, neighbors - seen)
        invariant lone ==> marked == seen + {start}
        decreases neighbors - marked, |queue|
      {
        var c := queue[0];
        queue := queue[1..];
        ghost var before, rest := marked, queue;
        ghost var added;
        marked, queue, added := MarkAround(c, neighbors, marked, queue);
        forall a | (a in marked && a !in seen) || a == start ensures a in done + {c} || a in queue {
          if a !in before {
            assert a in added;
          } else if a != c && a !in done {
            assert a in rest;
          }
        }
        forall a | (a in marked && a !in seen) || a == start ensures Reaches(start, a, neighbors - seen) {
          if a !in before {
            assert a in added;
            var ps :| IsWalk(ps, start, neighbors - seen) && ps[|ps| - 1] == c;
            WalkExtend(ps, start, neighbors - seen, a);
          }
        }
        done := done + {c};
      }
    }

    /** The inner loop of mark_region for one dequeued cell c: marks and enqueues,
        in the order up, down, left, right, each 4-neighbour of c that is in
        neighbors and not yet marked; `added` lists them. */
    method MarkAround(c: Pos, neighbors: set<Pos>, marked: set<Pos>, queue: seq<Pos>)
      returns (marked': set<Pos>, queue': seq<Pos>, ghost added: seq<Pos>)
      ensures marked <= marked'
      ensures queue' == queue + added
      ensures forall b :: b in added <==> b in marked' && b !in marked
      ensures forall b :: b in added ==> b in neighbors && Adjacent(c, b)
      ensures forall b :: b in neighbors && Adjacent(c, b) ==> b in marked'
      ensures added == [] ==> marked' == marked
      ensures added != [] ==> neighbors - marked' < neighbors - marked
    {
      marked', queue', added := marked, queue, [];
      for k := 0 to |AllDirections|
        invariant marked <= marked'
        invariant queue' == queue + added
        invariant forall b :: b in added <==> b in marked' && b !in marked
        invariant forall b :: b in added ==> b in neighbors && Adjacent(c, b)
        invariant forall e :: e in AllDirections[..k] && Step(c, e) in neighbors ==> Step(c, e) in marked'
        invariant added == [] ==> marked' == marked
        invariant added != [] ==> neighbors - marked' < neighbors - marked
      {
        var d := AllDirections[k];
        var t := (c.0 + d.Delta().0, c.1 + d.Delta().1);
        assert t == Step(c, d);
        StepIsAdjacent(c, d);
        assert AllDirections[..k + 1] == AllDirections[..k] + [d];
        if t in neighbors && t !in marked' {
          marked' := marked' + {t};
          queue' := queue' + [t];
          added := added + [t];
        }
      }
      forall b | b in neighbors && Adjacent(c, b) ensures b in marked' {
        var d := AdjacentIsStep(c, b);
        assert AllDirections[..|AllDirections|] == AllDirections;
        assert d in AllDirections;
      }
    }

    /** The number of 4-connected groups of ROOM neighbours of (x, y): always the
        number of ROOM neighbours, as no two 4-neighbours of a cell touch. */
    method CountRoomRegionsAround(x: int, y: int) returns (regions: nat)
      requires Valid()
      ensures regions == |RoomsAround((x, y))|
    {
      var ns := GetRoomNeighbors(x, y);
      var neighbors := set q | q in ns;
      AllDirectionsIsOrder();
      NeighborsWithFacts(Rows(maze), (x, y), AllDirections, ROOM);
      assert Apart(neighbors);
      var seen: set<Pos> := {};
      regions := 0;
      var rest := neighbors;
      while rest != {}
        invariant rest <= neighbors && seen == neighbors - rest
        invariant regions == |seen|
        decreases |rest|
      {
        var pos :| pos in rest;
        RestStep(neighbors, rest, pos);
        rest := rest - {pos};
        if pos !in seen {
          seen := MarkRegion(pos, neighbors, seen);
          regions := regions + 1;
        }
      }
      DistinctCard(ns);
    }

    method CalculateRoomProbability(x: int, y: int, neighborIndex: nat, totalNeighbors: nat) returns (p: real)
      requires Valid()
      ensures p == RoomProbability(baseProbFactor, decayFactor, minRoomProb, neighborIndex, totalNeighbors,
                                   |RoomsAround((x, y))| - 1)
      ensures p >= minRoomProb
    {
      var baseProb := if totalNeighbors > 0 then (neighborIndex + 1) as real / totalNeighbors as real
                      else baseProbFactor;
      var adjacent := CountAdjacentRooms(x, y);
      var decay := decayFactor * adjacent as real;
      p := if baseProb - decay > minRoomProb then baseProb - decay else minRoomProb;
    }

    /** Draws the next random value, then creates a room only if at most one
        room region touches the cell and the draw is below the probability. */
    method ShouldCreateRoom(x: int, y: int, roomProb: real) returns (create: bool)
      requires Valid()
      modifies this
      ensures Valid()
      ensures draws == old(draws) + 1
      ensures shuffles == old(shuffles) && rooms == old(rooms) && walls == old(walls)
      ensures create <==> |RoomsAround((x, y))| <= 1 && rand(old(draws)) < roomProb
    {
      var randVal := rand(draws);
      draws := draws + 1;
      var regionCount := CountRoomRegionsAround(x, y);
      create := regionCount <= 1 && randVal < roomProb;
    }

    /** Decides the cell (nx, ny): ROOM (counted and enqueued) or WALL (counted). */
    method ProcessNeighbor(nx: int, ny: int, neighborIndex: nat, totalNeighbors: nat, queue: seq<Pos>)
      returns (queue': seq<Pos>, ghost created: bool)
      requires Valid() && InBounds(nx, ny)
      modifies this, maze
      ensures Valid()
      ensures created <==>
        (|old(RoomsAround((nx, ny)))| <= 1
         && rand(old(draws)) < RoomProbability(baseProbFactor, decayFactor, minRoomProb, neighborIndex,
                                               totalNeighbors, |old(RoomsAround((nx, ny)))| - 1))
      ensures maze[nx, ny] == if created then ROOM else WALL
      ensures forall i, j :: 0 <= i < height && 0 <= j < width && (i, j) != (nx, ny) ==> maze[i, j] == old(maze[i, j])
      ensures rooms == old(rooms) + (if created then 1 else 0)
      ensures walls == old(walls) + (if created then 0 else 1)
      ensures queue' == if created then queue + [(nx, ny)] else queue
      ensures draws == old(draws) + 1 && shuffles == old(shuffles)
    {
      var roomProb := CalculateRoomProbability(nx, ny, neighborIndex, totalNeighbors);
      var create := ShouldCreateRoom(nx, ny, roomProb);
      created := create;
      if create {
        maze[nx, ny] := ROOM;
        rooms := rooms + 1;
        queue' := queue + [(nx, ny)];
      } else {
        maze[nx, ny] := WALL;
        walls := walls + 1;
        queue' := queue;
      }
    }

    /** Turns every UNVISITED cell into WALL, row by row; `added` lists those cells. */
    method FinalizeMaze() returns (ghost added: seq<Pos>)
      requires Valid()
      modifies this, maze
      ensures Valid()
      ensures forall i, j :: 0 <= i < height && 0 <= j < width ==> maze[i, j] == Finalized(old(maze[i, j]))
      ensures Distinct(added)
      ensures forall q :: q in added <==> (InGrid(height, width, q) && old(maze[q.0, q.1]) == UNVISITED)
      ensures walls == old(walls) + |added|
      ensures rooms == old(rooms) && draws == old(draws) && shuffles == old(shuffles)
    {
      added := [];
      for i := 0 to height
        invariant Valid()
        invariant forall a, b :: 0 <= a < height && 0 <= b < width ==>
          maze[a, b] == if a < i then Finalized(old(maze[a, b])) else old(maze[a, b])
        invariant Distinct(added)
        invariant forall q :: q in added <==> (InGrid(i, width, q) && old(maze[q.0, q.1]) == UNVISITED)
        invariant walls == old(walls) + |added|
        invariant rooms == old(rooms) && draws == old(draws) && shuffles == old(shuffles)
      {
        for j := 0 to width
          invariant Valid()
          invariant forall a, b :: 0 <= a < height && 0 <= b < width ==>
            maze[a, b] == if a < i || (a == i && b < j) then Finalized(old(maze[a, b])) else old(maze[a, b])
          invariant Distinct(added)
          invariant forall q :: q in added <==>
            ((InGrid(i, width, q) || (q.0 == i && 0 <= q.1 < j)) && old(maze[q.0, q.1]) == UNVISITED)
          invariant walls == old(walls) + |added|
          invariant rooms == old(rooms) && draws == old(draws) && shuffles == old(shuffles)
        {
          if maze[i, j] == UNVISITED {
            maze[i, j] := WALL;
            walls := walls + 1;
            added := added + [(i, j)];
          }
        }
      }
    }

    /** The given start coordinates, or the randint draws where they are missing. */
    static function StartOf(startX: Option<int>, startY: Option<int>, randomX: int, randomY: int): (p: Pos)
      ensures startX.Some? ==> p.0 == startX.value
      ensures startX.None? ==> p.0 == randomX
      ensures startY.Some? ==> p.1 == startY.value
      ensures startY.None? ==> p.1 == randomY
    {
      (if startX.Some? then startX.value else randomX, if startY.Some? then startY.value else randomY)
    }

    /** Breadth-first growth from the start cell, then finalize_maze. `tree` lists
        the cells made ROOM in order (the start first), `parent` the tree index of
        the room each was found from, and `made` the cells made WALL. */
    method Generate(startX: Option<int>, startY: Option<int>, randomX: int, randomY: int)
      returns (ghost tree: seq<Pos>, ghost parent: seq<nat>, ghost made: seq<Pos>)
      requires Valid()
      requires InBounds(StartOf(startX, startY, randomX, randomY).0, StartOf(startX, startY, randomX, randomY).1)
      modifies this, maze
      ensures Valid()
      ensures RoomTree.IsRoomTree(tree, parent) && tree[0] == StartOf(startX, startY, randomX, randomY)
      ensures forall i, j :: 0 <= i < height && 0 <= j < width ==> maze[i, j] != UNVISITED
      ensures PlacedIn(Rows(maze), tree, ROOM) && PlacedIn(Rows(maze), made, WALL)
      ensures rooms == old(rooms) + |tree| && walls == old(walls) + |made|
      ensures old(Fresh()) ==> forall i, j :: 0 <= i < height && 0 <= j < width ==>
        (maze[i, j] == ROOM <==> (i, j) in tree) && (maze[i, j] == ROOM || maze[i, j] == WALL)
      ensures old(Fresh()) ==> rooms + walls == height * width && rooms == |RoomCells()|
    {
      ghost var wasFresh := Fresh();
      tree, parent, made := GrowRooms(startX, startY, randomX, randomY);
      ghost var g1 := Rows(maze);
      ghost var added := FinalizeMaze();
      forall q ensures q in added <==> HasCode(g1, q, UNVISITED) {
        HasCodeAt(maze, q, UNVISITED);
      }
      FinishRun(g1, Rows(maze), height, width, tree, parent, made, added, wasFresh);
      made := made + added;
      if wasFresh {
        assert RoomCells() == RoomCellsOf(Rows(maze));
      }
    }

    /** The breadth-first part of generate: the start cell becomes ROOM and the
        queue of rooms is drained, each dequeued room deciding its UNVISITED
        neighbours. */
    method GrowRooms(startX: Option<int>, startY: Option<int>, randomX: int, randomY: int)
      returns (ghost tree: seq<Pos>, ghost parent: seq<nat>, ghost made: seq<Pos>)
      requires Valid()
      requires InBounds(StartOf(startX, startY, randomX, randomY).0, StartOf(startX, startY, randomX, randomY).1)
      modifies this, maze
      ensures Valid() && GrownIn(Rows(maze), height, width, tree, parent, made, old(Fresh()))
      ensures tree[0] == StartOf(startX, startY, randomX, randomY)
      ensures rooms == old(rooms) + |tree| && walls == old(walls) + |made|
    {
      var sx := if startX.Some? then startX.value else randomX;
      var sy := if startY.Some? then startY.value else randomY;
      ghost var wasFresh := Fresh();
      ghost var g0 := Rows(maze);
      maze[sx, sy] := ROOM;
      rooms := rooms + 1;
      StartGrown(g0, height, width, (sx, sy), wasFresh);
      RowsAfterWrite(maze, g0, (sx, sy), ROOM);
      var queue := [(sx, sy)];
      tree, parent, made := [(sx, sy)], [0], [];
      ghost var head := 0;
      while queue != []
        invariant Valid() && GrownIn(Rows(maze), height, width, tree, parent, made, wasFresh)
        invariant rooms == old(rooms) + |tree| && walls == old(walls) + |made|
        invariant head <= |tree| && queue == tree[head..] && tree[0] == (sx, sy)
        decreases height * width - |tree| - |made|, |queue|
      {
        var x, y := queue[0].0, queue[0].1;
        queue := queue[1..];
        head := head + 1;
        var ns := GetUnvisitedNeighbors(x, y);
        forall k | 0 <= k < |ns| ensures HasCode(Rows(maze), ns[k], UNVISITED) && Adjacent((x, y), ns[k]) {
          HasCodeAt(maze, ns[k], UNVISITED);
        }
        ghost var tree0 := tree;
        queue, tree, parent, made := VisitNeighbors(x, y, ns, queue, tree, parent, made, head,
                                                    old(rooms), old(walls), wasFresh);
        assert ns == [] ==> tree == tree0;
      }
    }

    /** The `for i, (nx, ny) in enumerate(neighbors)` loop of generate: each
        neighbour found from the dequeued room (x, y), tree cell head - 1, is
        decided in turn. */
    method VisitNeighbors(x: int, y: int, ns: seq<Pos>, queue: seq<Pos>,
                          ghost tree: seq<Pos>, ghost parent: seq<nat>, ghost made: seq<Pos>, ghost head: nat,
                          ghost rooms0: int, ghost walls0: int, ghost untouched: bool)
      returns (queue': seq<Pos>, ghost tree': seq<Pos>, ghost parent': seq<nat>, ghost made': seq<Pos>)
      requires Valid() && GrownIn(Rows(maze), height, width, tree, parent, made, untouched)
      requires rooms == rooms0 + |tree| && walls == walls0 + |made|
      requires 1 <= head <= |tree| && tree[head - 1] == (x, y) && queue == tree[head..]
      requires Distinct(ns)
      requires forall k :: 0 <= k < |ns| ==> HasCode(Rows(maze), ns[k], UNVISITED) && Adjacent((x, y), ns[k])
      modifies this, maze
      ensures Valid() && GrownIn(Rows(maze), height, width, tree', parent', made', untouched)
      ensures rooms == rooms0 + |tree'| && walls == walls0 + |made'|
      ensures |tree| <= |tree'| && tree'[..|tree|] == tree && queue' == tree'[head..]
      ensures |made| <= |made'| && made'[..|made|] == made
      ensures |tree'| + |made'| == |tree| + |made| + |ns|
    {
      queue', tree', parent', made' := queue, tree, parent, made;
      var total := |ns|;
      for i := 0 to |ns|
        invariant Valid() && GrownIn(Rows(maze), height, width, tree', parent', made', untouched)
        invariant rooms == rooms0 + |tree'| && walls == walls0 + |made'|
        invariant |tree| <= |tree'| && tree'[..|tree|] == tree && queue' == tree'[head..]
        invariant |made| <= |made'| && made'[..|made|] == made
        invariant |tree'| + |made'| == |tree| + |made| + i
        invariant forall k :: i <= k < |ns| ==> HasCode(Rows(maze), ns[k], UNVISITED) && Adjacent((x, y), ns[k])
      {
        ghost var g := Rows(maze);
        queue', tree', parent', made' := DecideNeighbor(ns[i], i, total, queue', tree', parent', made', head, untouched);
        forall k | i + 1 <= k < |ns| ensures HasCode(Rows(maze), ns[k], UNVISITED) {
          assert ns[k] != ns[i];
          assert HasCode(g, ns[k], UNVISITED);
        }
      }
    }

    /** One round of that loop: the neighbour n, the index-th of total, becomes
        a ROOM appended to the tree and the queue, or a WALL appended to the
        walls made. */
    method DecideNeighbor(n: Pos, index: nat, total: nat, queue: seq<Pos>,
                          ghost tree: seq<Pos>, ghost parent: seq<nat>, ghost made: seq<Pos>, ghost head: nat,
                          ghost untouched: bool)
      returns (queue': seq<Pos>, ghost tree': seq<Pos>, ghost parent': seq<nat>, ghost made': seq<Pos>)
      requires Valid() && GrownIn(Rows(maze), height, width, tree, parent, made, untouched)
      requires 1 <= head <= |tree| && queue == tree[head..]
      requires HasCode(Rows(maze), n, UNVISITED) && Adjacent(tree[head - 1], n)
      modifies this, maze
      ensures Valid() && GrownIn(Rows(maze), height, width, tree', parent', made', untouched)
      ensures (tree' == tree + [n] && made' == made && rooms == old(rooms) + 1 && walls == old(walls))
              || (tree' == tree && made' == made + [n] && rooms == old(rooms) && walls == old(walls) + 1)
      ensures queue' == tree'[head..]
      ensures forall q :: q != n ==> (HasCode(Rows(maze), q, UNVISITED) <==> HasCode(old(Rows(maze)), q, UNVISITED))
    {
      ghost var g := Rows(maze);
      ghost var created: bool;
      queue', created := ProcessNeighbor(n.0, n.1, index, total, queue);
      RowsAfterWrite(maze, g, n, if created then ROOM else WALL);
      tree', parent', made' := Decided(g, height, width, tree, parent, made, untouched, head, n, created);
    }
  }

  // ---------------------------------------------------------------------------
  // The name save_maze gives a generated maze

  /** A local date and time as strftime reads it. */
  datatype Timestamp = Timestamp(year: nat, month: nat, day: nat, hour: nat, minute: nat, second: nat) {
    /** Four-digit year and two-digit fields, as "%Y%m%d" and "%H%M%S" print them. */
    predicate Printable() {
      1000 <= year <= 9999 && month < 100 && day < 100 && hour < 100 && minute < 100 && second < 100
    }
  }

  /** strftime("%Y%m%d"). */
  function DatePart(t: Timestamp): string {
    Text.NatToString(t.year) + Text.Pad2(t.month) + Text.Pad2(t.day)
  }

  /** strftime("%H%M%S"). */
  function TimePart(t: Timestamp): string {
    Text.Pad2(t.hour) + Text.Pad2(t.minute) + Text.Pad2(t.second)
  }

  /** f"{height}x{width}". */
  function SizeText(height: nat, width: nat): string {
    Text.NatToString(height) + "x" + Text.NatToString(width)
  }

  /** The file stem save_maze builds: "maze_{height}x{width}_{YYYYMMDD}_{HHMMSS}";
      it has four '_'-separated pieces, the date has eight characters and the time six. */
  function SavedStem(height: nat, width: nat, t: Timestamp): (stem: string)
    requires t.Printable()
    ensures |DatePart(t)| == 8 && |TimePart(t)| == 6
    ensures stem == Text.Join(["maze", SizeText(height, width), DatePart(t), TimePart(t)], '_')
  {
    Text.FourDigits(t.year);
    var a, b, c, d := "maze", SizeText(height, width), DatePart(t), TimePart(t);
    JoinFour(a, b, c, d);
    a + "_" + b + "_" + c + "_" + d
  }

  lemma JoinFour(a: string, b: string, c: string, d: string)
    ensures Text.Join([a, b, c, d], '_') == a + "_" + b + "_" + c + "_" + d
  {
    var parts := [a, b, c, d];
    assert Text.Join(parts[3..], '_') == d;
    assert Text.Join(parts[2..], '_') == c + "_" + d by { assert parts[2..][1..] == parts[3..]; }
    assert Text.Join(parts[1..], '_') == b + "_" + c + "_" + d by { assert parts[1..][1..] == parts[2..]; }
  }
}
