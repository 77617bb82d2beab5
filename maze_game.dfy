/** The game engine (MazeGame.MazeGame): a player and an exit placed on a loaded
    grid, single-step moves checked against the bounds and the walls, victory on
    reaching the exit, and the move statistics. The grid is a list of rows that the
    engine copies on loading and then overwrites cell by cell, so it is a field of
    type seq<seq<int>> that the methods reassign. */
module MazeGame {
  import opened Outcomes
  import opened Cells

  type Grid = seq<seq<int>>

  /** An argument of move_player / is_valid_move: a key string or a Direction member. */
  datatype MoveKey = Key(s: string) | Member(d: Direction)

  /** The key of DIRECTION_MAPPING that names each direction. */
  function KeyOf(d: Direction): string {
    match d
    case Up => "w"
    case Down => "s"
    case Left => "a"
    case Right => "d"
  }

  /** DIRECTION_MAPPING: the four keys and the four Direction members; anything else
      is unknown. */
  function DirectionOf(k: MoveKey): (r: Option<Direction>)
    ensures k.Member? ==> r == Some(k.d)
    ensures k.Key? ==> (r.Some? <==> k.s in ["w", "s", "a", "d"])
    ensures k.Key? && r.Some? ==> KeyOf(r.value) == k.s
  {
    match k
    case Member(d) => Some(d)
    case Key(s) =>
      if s == "w" then Some(Up)
      else if s == "s" then Some(Down)
      else if s == "a" then Some(Left)
      else if s == "d" then Some(Right)
      else None
  }

  /** Every direction's key maps back to it. */
  lemma KeyOfRoundTrip(d: Direction)
    ensures DirectionOf(Key(KeyOf(d))) == Some(d)
  {
  }

  /** The operands of a Python `==` between a cell and CellType: a plain integer,
      or a member of the (plain, not integer) enumeration. */
  datatype Operand = Int(i: int) | EnumMember(t: CellType)

  /** Python equality on those operands: an Enum member equals only itself, never
      an integer. */
  predicate PyEq(a: Operand, b: Operand) {
    match (a, b)
    case (Int(i), Int(j)) => i == j
    case (EnumMember(s), EnumMember(t)) => s == t
    case _ => false
  }

  /** g has a cell at p. */
  predicate HasCell(g: Grid, p: Pos) {
    0 <= p.0 < |g| && 0 <= p.1 < |g[p.0]|
  }

  /** generate_player succeeds on g: the given position is a non-WALL cell of g,
      or, with none given, g has a ROOM cell. */
  ghost predicate PlayerPlaceable(g: Grid, position: Option<Pos>) {
    if position.Some? then HasCell(g, position.value) && !HasCode(g, position.value, WALL)
    else exists q: Pos :: HasCode(g, q, ROOM)
  }

  /** The test of the room searches: a ROOM cell other than skip. */
  function RoomExcept(g: Grid, skip: Option<Pos>): Pos -> bool {
    (q: Pos) => HasCode(g, q, ROOM) && Some(q) != skip
  }

  /** The same test as get_available_rooms writes it: the cell compared with the
      enumeration member CellType.ROOM rather than its value. */
  function RoomAsWritten(g: Grid, skip: Option<Pos>): Pos -> bool {
    (q: Pos) => 0 <= q.0 < |g| && 0 <= q.1 < |g[q.0]| && PyEq(Int(g[q.0][q.1]), EnumMember(Room)) && Some(q) != skip
  }

  /** The nested loops over a rectangle of the grid that collect the ROOM cells
      other than skip. */
  method ScanRooms(g: Grid, x0: int, x1: int, y0: int, y1: int, skip: Option<Pos>) returns (rooms: seq<Pos>)
    requires Rectangular(g)
    requires 0 <= x0 && x1 <= |g| && 0 <= y0 && y1 <= Width(g)
    ensures rooms == ScanRect(x0, x1, y0, y1, RoomExcept(g, skip))
  {
    rooms := [];
    var x := x0;
    while x < x1
      invariant x0 <= x <= if x0 <= x1 then x1 else x0
      invariant rooms == ScanRect(x0, x, y0, y1, RoomExcept(g, skip))
      decreases x1 - x
    {
      var y := y0;
      while y < y1
        invariant y0 <= y <= if y0 <= y1 then y1 else y0
        invariant rooms == ScanRect(x0, x, y0, y1, RoomExcept(g, skip)) + ScanRow(x, y0, y, RoomExcept(g, skip))
        decreases y1 - y
      {
        if g[x][y] == ROOM && Some((x, y)) != skip {
          rooms := rooms + [(x, y)];
        }
        y := y + 1;
      }
      assert ScanRow(x, y0, y, RoomExcept(g, skip)) == ScanRow(x, y0, y1, RoomExcept(g, skip));
      x := x + 1;
    }
  }

  // ---------------------------------------------------------------------------
  // Selection helpers of generate_exit

  /** [room for room in rooms if distance(player, room) >= minDist]. */
  function FarEnough(rooms: seq<Pos>, p: Pos, minDist: int): (r: seq<Pos>)
    ensures |r| <= |rooms|
    ensures forall q :: q in r <==> q in rooms && Manhattan(p, q) >= minDist
  {
    if rooms == [] then []
    else (if Manhattan(p, rooms[0]) >= minDist then [rooms[0]] else []) + FarEnough(rooms[1..], p, minDist)
  }

  /** max(rooms, key=distance from p): the index of the first room at the greatest
      distance. */
  function Furthest(rooms: seq<Pos>, p: Pos): (k: nat)
    requires |rooms| > 0
    ensures k < |rooms|
    ensures forall i :: 0 <= i < |rooms| ==> Manhattan(p, rooms[i]) <= Manhattan(p, rooms[k])
    ensures forall i :: 0 <= i < k ==> Manhattan(p, rooms[i]) < Manhattan(p, rooms[k])
  {
    if |rooms| == 1 then 0
    else
      var best := Furthest(rooms[..|rooms| - 1], p);
      if Manhattan(p, rooms[|rooms| - 1]) > Manhattan(p, rooms[best]) then |rooms| - 1 else best
  }

  /** Python's order on (distance, corner) tuples: lexicographic. */
  predicate NotBelow(a: (int, Pos), b: (int, Pos)) {
    a.0 > b.0 || (a.0 == b.0 && (a.1.0 > b.1.0 || (a.1.0 == b.1.0 && a.1.1 >= b.1.1)))
  }

  lemma NotBelowAntisymmetric(a: (int, Pos), b: (int, Pos))
    requires NotBelow(a, b) && NotBelow(b, a)
    ensures a == b
  {
  }

  /** Corner c comes before corner d when generate_exit sorts (distance from p, corner)
      pairs in reverse. */
  predicate RanksAbove(p: Pos, c: Pos, d: Pos) {
    c != d && NotBelow((Manhattan(p, c), c), (Manhattan(p, d), d))
  }

  predicate Descending(s: seq<(int, Pos)>) {
    forall i, j :: 0 <= i < j < |s| ==> NotBelow(s[i], s[j])
  }

  function Insert(x: (int, Pos), s: seq<(int, Pos)>): (r: seq<(int, Pos)>)
    requires Descending(s)
    ensures Descending(r)
    ensures multiset(r) == multiset(s) + multiset{x}
  {
    if s == [] then [x]
    else if NotBelow(x, s[0]) then [x] + s
    else
      var rest := Insert(x, s[1..]);
      assert s == [s[0]] + s[1..];
      forall k | 0 <= k < |rest| ensures NotBelow(s[0], rest[k]) {
        assert rest[k] in multiset(rest);
        if rest[k] != x {
          assert rest[k] in multiset(s[1..]);
        }
      }
      [s[0]] + rest
  }

  /** list.sort(reverse=True) on (distance, corner) tuples. */
  function SortDescending(s: seq<(int, Pos)>): (r: seq<(int, Pos)>)
    ensures Descending(r)
    ensures multiset(r) == multiset(s)
  {
    if s == [] then []
    else
      assert s == [s[0]] + s[1..];
      Insert(s[0], SortDescending(s[1..]))
  }

  lemma SameMembers<T>(a: seq<T>, b: seq<T>)
    requires multiset(a) == multiset(b)
    ensures |a| == |b|
    ensures forall y :: y in a <==> y in b
  {
    assert |a| == |multiset(a)| && |b| == |multiset(b)|;
    forall y ensures y in a <==> y in b {
      assert y in a <==> y in multiset(a);
      assert y in b <==> y in multiset(b);
    }
  }

  /** [(distance(p, c), c) for c in cs]. */
  function WithDistances(p: Pos, cs: seq<Pos>): (r: seq<(int, Pos)>)
    ensures |r| == |cs|
    ensures forall k :: 0 <= k < |cs| ==> r[k] == (Manhattan(p, cs[k]), cs[k])
  {
    if cs == [] then [] else [(Manhattan(p, cs[0]), cs[0])] + WithDistances(p, cs[1..])
  }

  /** The positions cs with their distances from p, sorted furthest first (ties by
      the position, larger first). */
  function ByDistance(p: Pos, cs: seq<Pos>): (r: seq<(int, Pos)>)
    ensures |r| == |cs|
    ensures multiset(r) == multiset(WithDistances(p, cs))
    ensures forall k :: 0 <= k < |r| ==> r[k].1 in cs && r[k].0 == Manhattan(p, r[k].1)
    ensures forall c :: c in cs ==> exists k :: 0 <= k < |r| && r[k].1 == c
  {
    ByDistanceMembers(p, cs, SortDescending(WithDistances(p, cs)));
    SortDescending(WithDistances(p, cs))
  }

  /** The corners are tried furthest first. */
  lemma ByDistanceSorted(p: Pos, cs: seq<Pos>)
    ensures Descending(ByDistance(p, cs))
  {
  }

  lemma ByDistanceMembers(p: Pos, cs: seq<Pos>, r: seq<(int, Pos)>)
    requires multiset(r) == multiset(WithDistances(p, cs))
    ensures |r| == |cs|
    ensures forall k :: 0 <= k < |r| ==> r[k].1 in cs && r[k].0 == Manhattan(p, r[k].1)
    ensures forall c :: c in cs ==> exists k :: 0 <= k < |r| && r[k].1 == c
  {
    var s := WithDistances(p, cs);
    SameMembers(r, s);
    forall k | 0 <= k < |r| ensures r[k].1 in cs && r[k].0 == Manhattan(p, r[k].1) {
      assert r[k] in r;
      var j :| 0 <= j < |s| && s[j] == r[k];
      assert cs[j] in cs;
    }
    forall c | c in cs ensures exists k :: 0 <= k < |r| && r[k].1 == c {
      var j :| 0 <= j < |cs| && cs[j] == c;
      assert s[j] in s;
      var k :| 0 <= k < |r| && r[k] == s[j];
    }
  }

  /** `min_distance or self.min_exit_distance`: None and 0 both fall back. */
  function EffectiveMinDistance(minDistance: Option<int>, fallback: int): (r: int)
    ensures minDistance == None || minDistance == Some(0) ==> r == fallback
    ensures minDistance.Some? && minDistance.value != 0 ==> r == minDistance.value
  {
    if minDistance.None? || minDistance.value == 0 then fallback else minDistance.value
  }

  // ---------------------------------------------------------------------------
  // Statistics and saved states

  /** GameStats: the move count, the start and end times and the path. */
  datatype GameStats = GameStats(movesCount: int, startTime: Option<real>, endTime: Option<real>, path: seq<Pos>)

  const NewStats: GameStats := GameStats(0, None, None, [])

  /** Every field of a game. */
  datatype GameSnapshot = GameSnapshot(
    maze: Option<Grid>, originalMaze: Option<Grid>,
    player: Option<Pos>, exit: Option<Pos>,
    isPlaying: bool, gameWon: bool, gameOver: bool,
    stats: GameStats)

  /** The "stats" entry of a saved state; a missing key is None. */
  datatype SavedStats = SavedStats(
    movesCount: Option<int>, startTime: Option<real>, endTime: Option<real>, path: Option<seq<Pos>>)

  /** The dictionary of save_game_state; a missing key, or a key holding None, is None. */
  datatype SavedState = SavedState(
    maze: Option<Grid>, originalMaze: Option<Grid>,
    player: Option<Pos>, exit: Option<Pos>,
    isPlaying: Option<bool>, gameWon: Option<bool>, gameOver: Option<bool>,
    stats: Option<SavedStats>)

  /** `copy if grid else None`: an empty list of rows is saved as None. */
  function Truthy(m: Option<Grid>): Option<Grid> {
    if m.Some? && |m.value| > 0 then m else None
  }

  function OrElse<T>(o: Option<T>, d: T): T {
    if o.Some? then o.value else d
  }

  /** save_game_state. */
  function Save(s: GameSnapshot): SavedState {
    SavedState(Truthy(s.maze), Truthy(s.originalMaze), s.player, s.exit,
               Some(s.isPlaying), Some(s.gameWon), Some(s.gameOver),
               Some(SavedStats(Some(s.stats.movesCount), s.stats.startTime, s.stats.endTime, Some(s.stats.path))))
  }

  /** The game after load_game_state(state) on a game whose fields were s: the
      grids and flags are taken over with their defaults, while a missing player
      or exit position keeps the one the game had. */
  function Restore(s: GameSnapshot, state: SavedState): GameSnapshot {
    var st := OrElse(state.stats, SavedStats(None, None, None, None));
    GameSnapshot(state.maze, state.originalMaze,
             if state.player.Some? then state.player else s.player,
             if state.exit.Some? then state.exit else s.exit,
             OrElse(state.isPlaying, false), OrElse(state.gameWon, false), OrElse(state.gameOver, false),
             GameStats(OrElse(st.movesCount, 0), st.startTime, st.endTime, OrElse(st.path, [])))
  }

  /** Loading what a game saved restores every field of that game, except that an
      empty list of rows comes back as no grid at all. */
  lemma SaveLoadRoundTrip(s: GameSnapshot)
    ensures Restore(s, Save(s)) == s.(maze := Truthy(s.maze), originalMaze := Truthy(s.originalMaze))
    ensures (s.maze.None? || |s.maze.value| > 0) && (s.originalMaze.None? || |s.originalMaze.value| > 0)
            ==> Restore(s, Save(s)) == s
  {
  }

  /** Loading a saved state into another game takes over everything but a missing
      position, which the receiving game keeps. */
  lemma SaveLoadOnto(t: GameSnapshot, s: GameSnapshot)
    ensures Restore(t, Save(s)).player == (if s.player.Some? then s.player else t.player)
    ensures Restore(t, Save(s)).exit == (if s.exit.Some? then s.exit else t.exit)
    ensures Restore(t, Save(s)).stats == s.stats
    ensures Restore(t, Save(s)).isPlaying == s.isPlaying
  {
  }

  // ---------------------------------------------------------------------------
  // The engine

  class Game {
    var maze: Option<Grid>
    var originalMaze: Option<Grid>
    var player: Option<Pos>
    var exit: Option<Pos>
    var isPlaying: bool
    var gameWon: bool
    var gameOver: bool
    var stats: GameStats
    const exitSearchRadius: int
    const minExitDistance: int

    /** The grids are rectangular, a player stands inside the grid and a game in
        play has a player. */
    ghost predicate GridsOk()
      reads this
    {
      (maze.Some? ==> Rectangular(maze.value))
      && (originalMaze.Some? ==> Rectangular(originalMaze.value))
    }

    ghost predicate Valid()
      reads this
    {
      GridsOk()
      && (player.Some? ==> maze.Some? && InGrid(|maze.value|, Width(maze.value), player.value))
      && (isPlaying ==> player.Some?)
    }

    function Snapshot(): GameSnapshot
      reads this
    {
      GameSnapshot(maze, originalMaze, player, exit, isPlaying, gameWon, gameOver, stats)
    }

    /** The grid's rows; no grid has none. */
    function Board(): Grid
      reads this
    {
      if maze.Some? then maze.value else []
    }

    constructor (maze: Option<Grid>)
      requires maze.Some? ==> Rectangular(maze.value)
      ensures Valid()
      ensures Snapshot() == GameSnapshot(maze, None, None, None, false, false, false, NewStats)
      ensures exitSearchRadius == 3 && minExitDistance == 5
    {
      this.maze := maze;
      originalMaze := None;
      player := None;
      exit := None;
      isPlaying := false;
      gameWon := false;
      gameOver := false;
      stats := NewStats;
      exitSearchRadius := 3;
      minExitDistance := 5;
    }

    /** maze_dimensions: (0, 0) without a grid. */
    function Dimensions(): (nat, nat)
      reads this
    {
      (|Board()|, Width(Board()))
    }

    /** in_bounds: the grid has a cell at (x, y). */
    function InBounds(x: int, y: int): (r: bool)
      reads this
      ensures Valid() ==> (r <==> maze.Some? && 0 <= x < |maze.value| && 0 <= y < |maze.value[x]|)
    {
      0 <= x < Dimensions().0 && 0 <= y < Dimensions().1
    }

    /** is_walkable, with the cell compared with the code of WALL. */
    function IsWalkable(x: int, y: int): (r: bool)
      requires Valid()
      reads this
      ensures r <==> InBounds(x, y) && !HasCode(Board(), (x, y), WALL)
      ensures r ==> FromCode(Board()[x][y]) != Some(Wall)
    {
      InBounds(x, y) && Board()[x][y] != WALL
    }

    /** is_walkable as written: the cell compared with the member CellType.WALL. */
    function IsWalkableAsWritten(x: int, y: int): (r: bool)
      requires Valid()
      reads this
    {
      InBounds(x, y) && !PyEq(Int(Board()[x][y]), EnumMember(Wall))
    }

    /** As written, every cell inside the grid counts as walkable, walls included. */
    lemma WalkableAsWrittenIsInBounds(x: int, y: int)
      requires Valid()
      ensures IsWalkableAsWritten(x, y) == InBounds(x, y)
    {
    }

    /** A grid with a single WALL cell: walkable as written, not walkable as meant. */
    lemma WallWalkableAsWritten()
      requires Valid() && maze == Some([[WALL]])
      ensures IsWalkableAsWritten(0, 0) && !IsWalkable(0, 0)
    {
    }

    /** get_available_rooms with the cells compared with the code of ROOM: the ROOM
        cells in row-major order, less the player's cell when excludePlayer. */
    method GetAvailableRooms(excludePlayer: bool) returns (rooms: seq<Pos>)
      requires Valid()
      ensures rooms == ScanRect(0, Dimensions().0, 0, Dimensions().1, RoomExcept(Board(), if excludePlayer then player else None))
      ensures forall q :: q in rooms <==> InBounds(q.0, q.1) && Board()[q.0][q.1] == ROOM && !(excludePlayer && Some(q) == player)
      ensures RowMajor(rooms)
    {
      if maze.None? {
        return [];
      }
      rooms := ScanRooms(Board(), 0, Dimensions().0, 0, Dimensions().1, if excludePlayer then player else None);
      ScanRectFacts(0, Dimensions().0, 0, Dimensions().1, RoomExcept(Board(), if excludePlayer then player else None));
    }

    /** get_available_rooms as written: no cell's integer equals the member
        CellType.ROOM, so nothing is ever collected. */
    method GetAvailableRoomsAsWritten(excludePlayer: bool) returns (rooms: seq<Pos>)
      requires Valid()
      ensures rooms == []
    {
      rooms := [];
      if maze.None? {
        return;
      }
      var g := maze.value;
      var skip := if excludePlayer then player else None;
      var x := 0;
      while x < |g|
        invariant rooms == []
      {
        var y := 0;
        while y < Width(g)
          invariant rooms == []
        {
          if PyEq(Int(g[x][y]), EnumMember(Room)) && Some((x, y)) != skip {
            rooms := rooms + [(x, y)];
          }
          y := y + 1;
        }
        x := x + 1;
      }
    }

    /** A grid with a single ROOM cell and no player: one available room as meant,
        none as written. */
    lemma AvailableRoomsLostAsWritten()
      requires maze == Some([[ROOM]]) && player.None?
      ensures ScanRect(0, 1, 0, 1, RoomExcept(Board(), player)) == [(0, 0)]
      ensures ScanRect(0, 1, 0, 1, RoomAsWritten(Board(), player)) == []
    {
      assert RoomExcept(Board(), player)((0, 0));
      assert !RoomAsWritten(Board(), player)((0, 0));
    }

    /** load_maze: an empty grid or an empty first row is refused; otherwise the
        grid becomes both the playing grid and the backup, and the game is reset. */
    method LoadMaze(m: Grid) returns (ok: bool)
      requires Valid() && Rectangular(m)
      modifies this
      ensures Valid()
      ensures ok <==> |m| > 0 && |m[0]| > 0
      ensures !ok ==> Snapshot() == old(Snapshot())
      ensures ok ==> Snapshot() == GameSnapshot(Some(m), Some(m), None, None, false, false, false, NewStats)
    {
      if |m| == 0 || |m[0]| == 0 {
        return false;
      }
      maze := Some(m);
      originalMaze := Some(m);
      ResetGameState();
      return true;
    }

    /** reset_game_state: no player, no exit, not playing, fresh statistics; the
        grids are kept. */
    method ResetGameState()
      requires GridsOk()
      modifies this
      ensures Valid()
      ensures Snapshot() == GameSnapshot(old(maze), old(originalMaze), None, None, false, false, false, NewStats)
    {
      player := None;
      exit := None;
      isPlaying := false;
      gameWon := false;
      gameOver := false;
      stats := NewStats;
    }

    /** generate_player: at the given position if it is inside the grid and not a
        wall, otherwise at the ROOM cell the draw idx selects among all ROOM cells
        in row-major order; the cell becomes PLAYER, the game is in play, the start
        time is now and the cell is appended to the path. */
    method GeneratePlayer(position: Option<Pos>, idx: nat, now: real) returns (ok: bool)
      requires Valid()
      modifies this
      ensures Valid()
      ensures old(maze).None? ==> !ok
      ensures old(maze).Some? && position.Some? ==>
                (ok <==> HasCell(old(Board()), position.value) && !HasCode(old(Board()), position.value, WALL))
      ensures old(maze).Some? && position.None? ==> (ok <==> exists q: Pos :: HasCode(old(Board()), q, ROOM))
      ensures !ok ==> Snapshot() == old(Snapshot())
      ensures ok ==> player.Some? && HasCell(old(Board()), player.value)
                     && (position.Some? ==> player == position)
                     && (position.None? ==> HasCode(old(Board()), player.value, ROOM))
                     && maze == Some(Write(old(Board()), player.value, PLAYER))
                     && isPlaying
                     && stats == old(stats).(startTime := Some(now), path := old(stats.path) + [player.value])
                     && originalMaze == old(originalMaze) && exit == old(exit)
                     && gameWon == old(gameWon) && gameOver == old(gameOver)
    {
      if maze.None? {
        return false;
      }
      var p;
      ok, p := PlayerCell(position, idx);
      assert Board() == old(Board());
      if !ok {
        return;
      }
      player := Some(p);
      maze := Some(Write(Board(), p, PLAYER));
      isPlaying := true;
      stats := stats.(startTime := Some(now), path := stats.path + [p]);
    }

    /** The cell generate_player places the player on: the position given when it
        is on the grid and walkable, else with none given a room drawn by idx. */
    method PlayerCell(position: Option<Pos>, idx: nat) returns (ok: bool, p: Pos)
      requires Valid() && maze.Some?
      ensures position.Some? ==> (ok <==> HasCell(Board(), position.value) && !HasCode(Board(), position.value, WALL))
      ensures position.None? ==> (ok <==> exists q: Pos :: HasCode(Board(), q, ROOM))
      ensures ok ==> HasCell(Board(), p)
                     && (position.Some? ==> p == position.value)
                     && (position.None? ==> HasCode(Board(), p, ROOM))
    {
      p := (0, 0);
      if position.Some? {
        if !InBounds(position.value.0, position.value.1) || !IsWalkable(position.value.0, position.value.1) {
          return false, p;
        }
        return true, position.value;
      }
      var rooms := ScanRooms(Board(), 0, Dimensions().0, 0, Dimensions().1, None);
      ScanRectFacts(0, Dimensions().0, 0, Dimensions().1, RoomExcept(Board(), None));
      if rooms == [] {
        return false, p;
      }
      p := rooms[idx % |rooms|];
      assert RoomExcept(Board(), None)(p);
      return true, p;
    }

    /** _calculate_distance: the Manhattan distance, zero exactly between equal
        positions and symmetric. */
    static function CalculateDistance(a: Pos, b: Pos): (d: nat)
      ensures d == 0 <==> a == b
      ensures d == Manhattan(b, a)
    {
      Manhattan(a, b)
    }

    /** _get_corner_positions: top-left, top-right, bottom-left, bottom-right; each
        on a border row and a border column, and inside a non-empty grid. */
    function CornerPositions(): (r: seq<Pos>)
      reads this
      ensures |r| == 4
      ensures forall k :: 0 <= k < 4 ==> (r[k].0 == 0 || r[k].0 == Dimensions().0 - 1)
                                         && (r[k].1 == 0 || r[k].1 == Dimensions().1 - 1)
      ensures Dimensions().0 > 0 && Dimensions().1 > 0 ==>
                forall k :: 0 <= k < 4 ==> InBounds(r[k].0, r[k].1)
    {
      var (h, w) := Dimensions();
      [(0, 0), (0, w - 1), (h - 1, 0), (h - 1, w - 1)]
    }

    /** A ROOM cell other than the player's within radius of center in both
        coordinates. */
    predicate RoomNear(q: Pos, center: Pos, radius: int)
      reads this
    {
      HasCode(Board(), q, ROOM) && Some(q) != player
      && Abs(q.0 - center.0) <= radius && Abs(q.1 - center.1) <= radius
    }

    /** _find_rooms_near_position: the ROOM cells of the (2 radius + 1)-square
        around center, clipped to the grid, other than the player's cell, in
        row-major order. */
    method FindRoomsNearPosition(center: Pos, radius: int) returns (rooms: seq<Pos>)
      requires Valid()
      ensures forall q :: q in rooms <==> RoomNear(q, center, radius)
      ensures RowMajor(rooms)
    {
      var (h, w) := Dimensions();
      assert Rectangular(Board());
      var minX := if 0 > center.0 - radius then 0 else center.0 - radius;
      var maxX := if h < center.0 + radius + 1 then h else center.0 + radius + 1;
      var minY := if 0 > center.1 - radius then 0 else center.1 - radius;
      var maxY := if w < center.1 + radius + 1 then w else center.1 + radius + 1;
      rooms := ScanRooms(Board(), minX, maxX, minY, maxY, player);
      ScanRectFacts(minX, maxX, minY, maxY, RoomExcept(Board(), player));
    }


    /** generate_exit: only in play; tries the corners furthest first and takes a
        drawn room near one of them that lies at least the minimum distance (None or
        0 meaning the default) from the player; otherwise the furthest such room of
        the whole grid; otherwise a drawn room at any distance. */
    method GenerateExit(minDistance: Option<int>, pick: nat) returns (ok: bool)
      requires Valid()
      modifies this
      ensures Valid()
      ensures !old(isPlaying) ==> !ok
      ensures ok <==> old(isPlaying) && exists q: Pos :: HasCode(old(Board()), q, ROOM) && Some(q) != old(player)
      ensures !ok ==> Snapshot() == old(Snapshot())
      ensures ok ==> exit.Some?
                     && HasCode(old(Board()), exit.value, ROOM)
                     && Some(exit.value) != player
                     && maze == Some(Write(old(Board()), exit.value, EXIT))
                     && player == old(player) && originalMaze == old(originalMaze) && stats == old(stats)
                     && isPlaying == old(isPlaying) && gameWon == old(gameWon) && gameOver == old(gameOver)
      ensures ok && player.Some?
              && (exists q: Pos :: HasCode(old(Board()), q, ROOM) && Some(q) != player
                                 && Manhattan(player.value, q) >= EffectiveMinDistance(minDistance, minExitDistance))
              ==> Manhattan(player.value, exit.value) >= EffectiveMinDistance(minDistance, minExitDistance)
      ensures ok && player.Some? && old(CornerExitExists(player.value, EffectiveMinDistance(minDistance, minExitDistance)))
              ==> var e := exit.value;
                  old(FirstCornerExit(player.value, e, EffectiveMinDistance(minDistance, minExitDistance)))
      ensures ok && player.Some? && !old(CornerExitExists(player.value, EffectiveMinDistance(minDistance, minExitDistance)))
              && (exists q: Pos :: HasCode(old(Board()), q, ROOM) && Some(q) != player
                                 && Manhattan(player.value, q) >= EffectiveMinDistance(minDistance, minExitDistance))
              ==> forall q: Pos :: HasCode(old(Board()), q, ROOM) && Some(q) != player
                                  ==> Manhattan(player.value, q) <= Manhattan(player.value, exit.value)
    {
      if maze.None? || !isPlaying {
        return false;
      }
      var minDist := EffectiveMinDistance(minDistance, minExitDistance);
      var found := ChooseExit(player.value, minDist, pick);
      if found.None? {
        return false;
      }
      exit := found;
      maze := Some(Write(Board(), found.value, EXIT));
      return true;
    }

    /** The choice of generate_exit, before the grid is written: the corner search
        first, and the fallback only when no corner yields a room. */
    method ChooseExit(p: Pos, minDist: int, pick: nat) returns (found: Option<Pos>)
      requires Valid() && player == Some(p)
      ensures found.Some? <==> exists q: Pos :: HasCode(Board(), q, ROOM) && Some(q) != player
      ensures found.Some? ==> HasCode(Board(), found.value, ROOM) && Some(found.value) != player
      ensures CornerExitExists(p, minDist) ==> found.Some? && FirstCornerExit(p, found.value, minDist)
      ensures (exists q: Pos :: HasCode(Board(), q, ROOM) && Some(q) != player && Manhattan(p, q) >= minDist) ==>
                found.Some? && Manhattan(p, found.value) >= minDist
      ensures !CornerExitExists(p, minDist)
              && (exists q: Pos :: HasCode(Board(), q, ROOM) && Some(q) != player && Manhattan(p, q) >= minDist) ==>
                found.Some? && forall q: Pos :: HasCode(Board(), q, ROOM) && Some(q) != player ==> Manhattan(p, q) <= Manhattan(p, found.value)
    {
      found := ExitNearCorners(p, minDist, pick);
      if found.None? {
        found := FallbackExit(p, minDist, pick);
      } else {
        ghost var c :| c in CornerPositions() && RoomNear(found.value, c, exitSearchRadius);
        assert CornerExitExists(p, minDist);
      }
    }


    /** The corner search of generate_exit: the corners furthest from p first, and at
        the first whose neighbourhood holds rooms at least minDist from p, the one the
        draw selects; none when no room near any corner is that far. */
    method ExitNearCorners(p: Pos, minDist: int, pick: nat) returns (found: Option<Pos>)
      requires Valid() && player == Some(p)
      ensures found.Some? ==> FirstCornerExit(p, found.value, minDist)
      ensures found.None? ==> !CornerExitExists(p, minDist)
    {
      var corners := CornersFurthestFirst(p);
      found := ExitNearAny(p, corners, minDist, pick);
      if found.None? {
        forall c | c in CornerPositions() ensures NoExitNear(p, c, minDist) {
          var k :| 0 <= k < |corners| && corners[k] == c;
        }
      } else {
        ghost var k :| 0 <= k < |corners| && RoomNear(found.value, corners[k], exitSearchRadius)
                       && forall j :: 0 <= j < k ==> NoExitNear(p, corners[j], minDist);
        ghost var c := corners[k];
        forall c' | c' in CornerPositions() && RanksAbove(p, c', c) ensures NoExitNear(p, c', minDist) {
          var j :| 0 <= j < |corners| && corners[j] == c';
          if j >= k {
            assert j != k;
            NotBelowAntisymmetric((Manhattan(p, c'), c'), (Manhattan(p, c), c));
            assert false;
          }
        }
      }
    }

    /** Some corner's neighbourhood holds a room at least minDist from p. */
    ghost predicate CornerExitExists(p: Pos, minDist: int)
      reads this
    {
      exists c, q :: c in CornerPositions() && RoomNear(q, c, exitSearchRadius) && Manhattan(p, q) >= minDist
    }

    /** e is at least minDist from p and near a corner c, and every corner tried
        before c (further from p, or as far and larger) has no such room near it. */
    ghost predicate FirstCornerExit(p: Pos, e: Pos, minDist: int)
      reads this
    {
      Manhattan(p, e) >= minDist
      && exists c :: c in CornerPositions() && RoomNear(e, c, exitSearchRadius)
                     && forall c' :: c' in CornerPositions() && RanksAbove(p, c', c) ==> NoExitNear(p, c', minDist)
    }

    /** The corners tried in order, stopping at the first that yields a room. */
    method ExitNearAny(p: Pos, corners: seq<Pos>, minDist: int, pick: nat) returns (found: Option<Pos>)
      requires Valid()
      ensures found.Some? ==> Manhattan(p, found.value) >= minDist
                              && exists k :: 0 <= k < |corners| && RoomNear(found.value, corners[k], exitSearchRadius)
                                             && forall j :: 0 <= j < k ==> NoExitNear(p, corners[j], minDist)
      ensures found.None? ==> forall k :: 0 <= k < |corners| ==> NoExitNear(p, corners[k], minDist)
    {
      var i := 0;
      while i < |corners|
        invariant i <= |corners|
        invariant forall k :: 0 <= k < i ==> NoExitNear(p, corners[k], minDist)
      {
        found := ExitNearCorner(p, corners[i], minDist, pick);
        if found.Some? {
          return;
        }
        i := i + 1;
      }
      return None;
    }

    /** The corners in the order generate_exit tries them: every corner once,
        furthest from p first. */
    method CornersFurthestFirst(p: Pos) returns (corners: seq<Pos>)
      ensures |corners| == 4
      ensures forall k :: 0 <= k < |corners| ==> corners[k] in CornerPositions()
      ensures forall c :: c in CornerPositions() ==> exists k :: 0 <= k < |corners| && corners[k] == c
      ensures forall k, l :: 0 <= k < l < |corners| ==> Manhattan(p, corners[k]) >= Manhattan(p, corners[l])
      ensures forall k, l :: 0 <= k < l < |corners| ==>
                NotBelow((Manhattan(p, corners[k]), corners[k]), (Manhattan(p, corners[l]), corners[l]))
    {
      var ranked := ByDistance(p, CornerPositions());
      ByDistanceSorted(p, CornerPositions());
      corners := seq(|ranked|, k requires 0 <= k < |ranked| => ranked[k].1);
      forall c | c in CornerPositions() ensures exists k :: 0 <= k < |corners| && corners[k] == c {
        var k :| 0 <= k < |ranked| && ranked[k].1 == c;
        assert corners[k] == c;
      }
      forall k, l | 0 <= k < l < |corners|
        ensures NotBelow((Manhattan(p, corners[k]), corners[k]), (Manhattan(p, corners[l]), corners[l]))
      {
        assert NotBelow(ranked[k], ranked[l]);
        assert ranked[k] == (Manhattan(p, corners[k]), corners[k]);
        assert ranked[l] == (Manhattan(p, corners[l]), corners[l]);
      }
    }

    /** No room near corner c lies at least minDist from p. */
    ghost predicate NoExitNear(p: Pos, c: Pos, minDist: int)
      reads this
    {
      forall q: Pos :: RoomNear(q, c, exitSearchRadius) ==> Manhattan(p, q) < minDist
    }

    /** One corner of the corner search: among the rooms near corner c at least
        minDist from p, the one the draw selects; none when there is none. */
    method ExitNearCorner(p: Pos, c: Pos, minDist: int, pick: nat) returns (found: Option<Pos>)
      requires Valid()
      ensures found.Some? ==> Manhattan(p, found.value) >= minDist && RoomNear(found.value, c, exitSearchRadius)
      ensures found.None? ==> NoExitNear(p, c, minDist)
    {
      var rooms := FindRoomsNearPosition(c, exitSearchRadius);
      if rooms != [] {
        var valid := FarEnough(rooms, p, minDist);
        if valid != [] {
          var e := valid[pick % |valid|];
          assert e in rooms;
          return Some(e);
        }
      }
      return None;
    }

    /** The fallback of generate_exit: the furthest of the available rooms when one
        lies at least minDist from p, otherwise the available room the draw selects. */
    method FallbackExit(p: Pos, minDist: int, pick: nat) returns (found: Option<Pos>)
      requires Valid() && player == Some(p)
      ensures found.Some? <==> exists q: Pos :: HasCode(Board(), q, ROOM) && Some(q) != player
      ensures found.Some? ==> HasCode(Board(), found.value, ROOM) && Some(found.value) != player
      ensures (exists q: Pos :: HasCode(Board(), q, ROOM) && Some(q) != player && Manhattan(p, q) >= minDist) ==>
                found.Some? && Manhattan(p, found.value) >= minDist
                && forall q: Pos :: HasCode(Board(), q, ROOM) && Some(q) != player ==> Manhattan(p, q) <= Manhattan(p, found.value)
    {
      var available := GetAvailableRooms(true);
      var valid := FarEnough(available, p, minDist);
      if valid != [] {
        var k := Furthest(valid, p);
        return Some(valid[k]);
      } else if available != [] {
        return Some(available[pick % |available|]);
      }
      return None;
    }

    /** is_valid_move: in play, a known key, and a target inside the grid that is
        not a wall; the game being over is not consulted. */
    function IsValidMove(key: MoveKey): (r: bool)
      requires Valid()
      reads this
      ensures r ==> isPlaying && DirectionOf(key).Some?
      ensures r ==> var t := Step(player.value, DirectionOf(key).value);
                    InBounds(t.0, t.1) && Board()[t.0][t.1] != WALL
      ensures isPlaying && DirectionOf(key).Some? ==>
                (r <==> IsWalkable(Step(player.value, DirectionOf(key).value).0, Step(player.value, DirectionOf(key).value).1))
    {
      if !isPlaying || DirectionOf(key).None? then false
      else
        var t := Step(player.value, DirectionOf(key).value);
        InBounds(t.0, t.1) && IsWalkable(t.0, t.1)
    }

    /** move_player: refused, changing nothing, when not in play or over, for an
        unknown key, out of the grid or into a wall; otherwise the move is counted,
        the old cell becomes VISITED, the target PLAYER and is appended to the path,
        and reaching the exit ends the game as won at time now. */
    method MovePlayer(key: MoveKey, now: real) returns (ok: bool)
      requires Valid()
      modifies this
      ensures Valid()
      ensures ok <==> !old(gameOver) && old(IsValidMove(key))
      ensures old(gameOver) ==> !ok
      ensures !ok ==> Snapshot() == old(Snapshot())
      ensures ok ==> var t := Step(old(player).value, DirectionOf(key).value);
                     var won := old(Board())[t.0][t.1] == EXIT;
                     player == Some(t)
                     && maze == Some(Write(Write(old(Board()), old(player).value, VISITED), t, PLAYER))
                     && stats == old(stats).(movesCount := old(stats.movesCount) + 1,
                                             path := old(stats.path) + [t],
                                             endTime := if won then Some(now) else old(stats.endTime))
                     && gameWon == (old(gameWon) || won) && gameOver == won
                     && isPlaying && exit == old(exit) && originalMaze == old(originalMaze)
    {
      if !isPlaying || gameOver {
        return false;
      }
      var d := DirectionOf(key);
      if d.None? {
        return false;
      }
      var t := Step(player.value, d.value);
      if !InBounds(t.0, t.1) {
        return false;
      }
      var target := Board()[t.0][t.1];
      if target == WALL {
        return false;
      }
      stats := stats.(movesCount := stats.movesCount + 1);
      if target == EXIT {
        HandleVictory(t, now);
        return true;
      }
      ExecuteMove(t);
      return true;
    }

    /** _handle_victory: the player steps onto the exit cell, the game is won and
        over, the end time is now and the exit is appended to the path. */
    method HandleVictory(t: Pos, now: real)
      requires Valid() && player.Some? && InBounds(t.0, t.1)
      modifies this
      ensures Valid()
      ensures player == Some(t)
      ensures maze == Some(Write(Write(old(Board()), old(player).value, VISITED), t, PLAYER))
      ensures gameWon && gameOver
      ensures stats == old(stats).(endTime := Some(now), path := old(stats.path) + [t])
      ensures isPlaying == old(isPlaying) && exit == old(exit) && originalMaze == old(originalMaze)
    {
      var p := player.value;
      maze := Some(Write(Board(), p, VISITED));
      player := Some(t);
      maze := Some(Write(Board(), t, PLAYER));
      gameWon := true;
      gameOver := true;
      stats := stats.(endTime := Some(now), path := stats.path + [t]);
    }

    /** _execute_move: the old cell becomes VISITED, the target PLAYER, and the
        target is appended to the path. */
    method ExecuteMove(t: Pos)
      requires Valid() && player.Some? && InBounds(t.0, t.1)
      modifies this
      ensures Valid()
      ensures player == Some(t)
      ensures maze == Some(Write(Write(old(Board()), old(player).value, VISITED), t, PLAYER))
      ensures stats == old(stats).(path := old(stats.path) + [t])
      ensures isPlaying == old(isPlaying) && gameWon == old(gameWon) && gameOver == old(gameOver)
      ensures exit == old(exit) && originalMaze == old(originalMaze)
    {
      var p := player.value;
      maze := Some(Write(Board(), p, VISITED));
      player := Some(t);
      maze := Some(Write(Board(), t, PLAYER));
      stats := stats.(path := stats.path + [t]);
    }

    /** get_move_suggestions: the keys w, a, s, d that are valid moves, in that order. */
    method GetMoveSuggestions() returns (moves: seq<string>)
      requires Valid()
      ensures forall k :: k in moves <==> k in ["w", "a", "s", "d"] && IsValidMove(Key(k))
      ensures exists ranks: seq<nat> :: |ranks| == |moves|
                && (forall i :: 0 <= i < |moves| ==> ranks[i] < 4 && ["w", "a", "s", "d"][ranks[i]] == moves[i])
                && (forall i, j :: 0 <= i < j < |moves| ==> ranks[i] < ranks[j])
    {
      var keys := ["w", "a", "s", "d"];
      moves := [];
      ghost var ranks: seq<nat> := [];
      for n := 0 to 4
        invariant |ranks| == |moves|
        invariant forall i :: 0 <= i < |moves| ==> ranks[i] < n && keys[ranks[i]] == moves[i]
        invariant forall i, j :: 0 <= i < j < |moves| ==> ranks[i] < ranks[j]
        invariant forall k :: k in moves <==> k in keys[..n] && IsValidMove(Key(k))
      {
        if IsValidMove(Key(keys[n])) {
          moves := moves + [keys[n]];
          ranks := ranks + [n];
        }
        assert keys[..n + 1] == keys[..n] + [keys[n]];
      }
      assert keys[..4] == keys;
    }

    /** The grid start_game plays on: the backup grid when there is a non-empty one,
        otherwise the current grid. */
    function StartBase(): Grid
      requires maze.Some?
      reads this
    {
      if originalMaze.Some? && |originalMaze.value| > 0 then originalMaze.value else maze.value
    }

    /** start_game: needs a grid; restores the backup grid when there is a
        non-empty one, resets the game, then places the player and the exit. It
        succeeds exactly when the player can be placed and another ROOM is left for
        the exit; a failed exit placement leaves the player placed and the game in
        play. */
    method StartGame(playerPos: Option<Pos>, minExitDist: Option<int>, idx: nat, pick: nat, now: real) returns (ok: bool)
      requires Valid()
      modifies this
      ensures Valid()
      ensures old(maze).None? ==> !ok && Snapshot() == old(Snapshot())
      ensures old(maze).Some? && !PlayerPlaceable(old(StartBase()), playerPos) ==>
                !ok && Snapshot() == GameSnapshot(Some(old(StartBase())), old(originalMaze), None, None, false, false, false, NewStats)
      ensures old(maze).Some? && PlayerPlaceable(old(StartBase()), playerPos) ==>
                var base := old(StartBase());
                player.Some? && HasCell(base, player.value)
                && (playerPos.Some? ==> player == playerPos)
                && (playerPos.None? ==> HasCode(base, player.value, ROOM))
                && originalMaze == old(originalMaze)
                && isPlaying && !gameWon && !gameOver
                && stats == GameStats(0, Some(now), None, [player.value])
                && (ok <==> exists q: Pos :: HasCode(Write(base, player.value, PLAYER), q, ROOM) && Some(q) != player)
                && (!ok ==> exit.None? && maze == Some(Write(base, player.value, PLAYER)))
      ensures ok ==> var base := old(StartBase());
                     player.Some? && exit.Some? && player != Some(exit.value)
                     && HasCell(base, player.value)
                     && HasCode(Write(base, player.value, PLAYER), exit.value, ROOM)
                     && maze == Some(Write(Write(base, player.value, PLAYER), exit.value, EXIT))
                     && originalMaze == old(originalMaze)
                     && isPlaying && !gameWon && !gameOver
                     && stats == GameStats(0, Some(now), None, [player.value])
      ensures ok && (exists q: Pos :: HasCode(Write(old(StartBase()), player.value, PLAYER), q, ROOM) && Some(q) != player
                                     && Manhattan(player.value, q) >= EffectiveMinDistance(minExitDist, minExitDistance))
              ==> Manhattan(player.value, exit.value) >= EffectiveMinDistance(minExitDist, minExitDistance)
    {
      if maze.None? {
        return false;
      }
      ghost var base := StartBase();
      if originalMaze.Some? && |originalMaze.value| > 0 {
        maze := originalMaze;
      }
      ResetGameState();
      assert Board() == base;
      ok := PlayerThenExit(playerPos, minExitDist, idx, pick, now);
    }

    /** The placements of start_game on a freshly reset game: the player, then, when
        that succeeded, the exit. */
    method PlayerThenExit(playerPos: Option<Pos>, minExitDist: Option<int>, idx: nat, pick: nat, now: real) returns (ok: bool)
      requires Valid() && maze.Some?
      requires Snapshot() == GameSnapshot(maze, originalMaze, None, None, false, false, false, NewStats)
      modifies this
      ensures Valid()
      ensures !PlayerPlaceable(old(Board()), playerPos) ==> !ok && Snapshot() == old(Snapshot())
      ensures PlayerPlaceable(old(Board()), playerPos) ==>
                var base := old(Board());
                player.Some? && HasCell(base, player.value)
                && (playerPos.Some? ==> player == playerPos)
                && (playerPos.None? ==> HasCode(base, player.value, ROOM))
                && originalMaze == old(originalMaze)
                && isPlaying && !gameWon && !gameOver
                && stats == GameStats(0, Some(now), None, [player.value])
                && (ok <==> exists q: Pos :: HasCode(Write(base, player.value, PLAYER), q, ROOM) && Some(q) != player)
                && (!ok ==> exit.None? && maze == Some(Write(base, player.value, PLAYER)))
                && (ok ==> exit.Some? && player != Some(exit.value)
                           && HasCode(Write(base, player.value, PLAYER), exit.value, ROOM)
                           && maze == Some(Write(Write(base, player.value, PLAYER), exit.value, EXIT)))
      ensures ok && (exists q: Pos :: HasCode(Write(old(Board()), player.value, PLAYER), q, ROOM) && Some(q) != player
                                     && Manhattan(player.value, q) >= EffectiveMinDistance(minExitDist, minExitDistance))
              ==> Manhattan(player.value, exit.value) >= EffectiveMinDistance(minExitDist, minExitDistance)
    {
      ok := GeneratePlayer(playerPos, idx, now);
      if !ok {
        return false;
      }
      ok := GenerateExit(minExitDist, pick);
    }

    /** save_game_state. */
    function SaveGameState(): (state: SavedState)
      reads this
      ensures state.isPlaying == Some(isPlaying) && state.stats.Some?
      ensures Restore(Snapshot(), state) == Snapshot().(maze := Truthy(maze), originalMaze := Truthy(originalMaze))
    {
      SaveLoadRoundTrip(Snapshot());
      Save(Snapshot())
    }

    /** The game that loading state into this one would give is a consistent game. */
    ghost predicate Loadable(state: SavedState)
      reads this
    {
      var s := Restore(Snapshot(), state);
      (s.maze.Some? ==> Rectangular(s.maze.value))
      && (s.originalMaze.Some? ==> Rectangular(s.originalMaze.value))
      && (s.player.Some? ==> s.maze.Some? && InGrid(|s.maze.value|, Width(s.maze.value), s.player.value))
      && (s.isPlaying ==> s.player.Some?)
    }

    /** load_game_state: every field from the state, keeping the current player or
        exit when the state has none and defaulting the missing entries. */
    method LoadGameState(state: SavedState) returns (ok: bool)
      requires Valid() && Loadable(state)
      modifies this
      ensures Valid() && ok
      ensures Snapshot() == Restore(old(Snapshot()), state)
    {
      maze := state.maze;
      originalMaze := state.originalMaze;
      if state.player.Some? {
        player := state.player;
      }
      if state.exit.Some? {
        exit := state.exit;
      }
      isPlaying := OrElse(state.isPlaying, false);
      gameWon := OrElse(state.gameWon, false);
      gameOver := OrElse(state.gameOver, false);
      var st := OrElse(state.stats, SavedStats(None, None, None, None));
      stats := GameStats(OrElse(st.movesCount, 0), st.startTime, st.endTime, OrElse(st.path, []));
      return true;
    }
  }
}
