/** The DP page's exit re-placement: every EXIT of a copy of the current maze is
    turned back into ROOM, the ROOM cells are listed, and one of them (preferably
    a corner, then a border cell) becomes the single new EXIT.

    random.random() and random.choice are injected: `cornerDraw` and `edgeDraw`
    are the draws compared with 0.4 and 0.6, and `pick` chooses the index. */
module MazeDpFrame {
  import opened Outcomes
  import opened Cells

  /** Number of cells holding code among the first n cells of row i. */
  function CellsInRow(a: array2<int>, i: nat, n: nat, code: int): nat
    requires i < a.Length0 && n <= a.Length1
    reads a
  {
    if n == 0 then 0 else CellsInRow(a, i, n - 1, code) + (if a[i, n - 1] == code then 1 else 0)
  }

  /** Number of cells holding code in the first m rows. */
  function CellsInRows(a: array2<int>, m: nat, code: int): nat
    requires m <= a.Length0
    reads a
  {
    if m == 0 then 0 else CellsInRows(a, m - 1, code) + CellsInRow(a, m - 1, a.Length1, code)
  }

  /** Number of cells holding code. */
  function CellCount(a: array2<int>, code: int): nat
    reads a
  {
    CellsInRows(a, a.Length0, code)
  }

  /** A row holding code at no cell but (i, y) holds it once there. */
  lemma {:induction false} RowCountOne(a: array2<int>, i: nat, n: nat, code: int, y: int)
    requires i < a.Length0 && n <= a.Length1
    requires forall j :: 0 <= j < n && j != y ==> a[i, j] != code
    ensures CellsInRow(a, i, n, code) == if 0 <= y < n && a[i, y] == code then 1 else 0
  {
    if n > 0 {
      RowCountOne(a, i, n - 1, code, y);
    }
  }

  /** A grid holding code at no cell but p has it once there, or not at all. */
  lemma {:induction false} CountOne(a: array2<int>, m: nat, code: int, p: Pos)
    requires m <= a.Length0
    requires forall i, j :: 0 <= i < m && 0 <= j < a.Length1 && (i != p.0 || j != p.1) ==> a[i, j] != code
    ensures CellsInRows(a, m, code) == if 0 <= p.0 < m && 0 <= p.1 < a.Length1 && a[p.0, p.1] == code then 1 else 0
  {
    if m > 0 {
      CountOne(a, m - 1, code, p);
      RowCountOne(a, m - 1, a.Length1, code, if m - 1 == p.0 then p.1 else -1);
    }
  }

  /** What _reset_exits makes of one cell. */
  function ResetCell(c: int): (r: int)
    ensures r != EXIT
    ensures c != EXIT ==> r == c
  {
    if c == EXIT then ROOM else c
  }

  /** _reset_exits: a new grid equal to current except that every EXIT is ROOM,
      and the number of EXIT cells of current; current is only read. */
  method ResetExits(current: array2<int>) returns (copy: array2<int>, exitCount: nat)
    ensures fresh(copy)
    ensures copy.Length0 == current.Length0 && copy.Length1 == current.Length1
    ensures forall i, j :: 0 <= i < copy.Length0 && 0 <= j < copy.Length1 ==> copy[i, j] == ResetCell(current[i, j])
    ensures exitCount == CellCount(current, EXIT)
  {
    copy := new int[current.Length0, current.Length1]((i, j) reads current =>
      if 0 <= i < current.Length0 && 0 <= j < current.Length1 then current[i, j] else 0);
    exitCount := 0;
    for i := 0 to copy.Length0
      invariant forall x, y :: 0 <= x < copy.Length0 && 0 <= y < copy.Length1 ==>
        copy[x, y] == if x < i then ResetCell(current[x, y]) else current[x, y]
      invariant exitCount == CellsInRows(current, i, EXIT)
    {
      var rowCount := ResetRow(current, copy, i);
      exitCount := exitCount + rowCount;
    }
  }

  /** Row i of _reset_exits: the EXIT cells of the row become ROOM in copy, which
      holds the reset rows before i and the current rows from i on; returns the
      number of EXIT cells of the row. */
  method ResetRow(current: array2<int>, copy: array2<int>, i: nat) returns (count: nat)
    requires copy != current && copy.Length0 == current.Length0 && copy.Length1 == current.Length1
    requires i < copy.Length0
    requires forall x, y :: 0 <= x < copy.Length0 && 0 <= y < copy.Length1 ==>
      copy[x, y] == if x < i then ResetCell(current[x, y]) else current[x, y]
    modifies copy
    ensures forall x, y :: 0 <= x < copy.Length0 && 0 <= y < copy.Length1 ==>
      copy[x, y] == if x <= i then ResetCell(current[x, y]) else current[x, y]
    ensures count == CellsInRow(current, i, copy.Length1, EXIT)
  {
    count := 0;
    for j := 0 to copy.Length1
      invariant forall x, y :: 0 <= x < copy.Length0 && 0 <= y < copy.Length1 ==>
        copy[x, y] == if x < i || (x == i && y < j) then ResetCell(current[x, y]) else current[x, y]
      invariant count == CellsInRow(current, i, j, EXIT)
    {
      if copy[i, j] == EXIT {
        copy[i, j] := ROOM;
        count := count + 1;
      }
    }
  }

  /** The cells of a grid that hold ROOM. */
  function IsRoomIn(g: seq<seq<int>>): Pos -> bool {
    q => HasCode(g, q, ROOM)
  }

  /** _find_room_positions: the ROOM cells in row-major order. */
  method FindRoomPositions(maze: array2<int>) returns (positions: seq<Pos>)
    ensures positions == ScanRect(0, maze.Length0, 0, maze.Length1, IsRoomIn(Rows(maze)))
    ensures forall q :: q in positions <==> InGrid(maze.Length0, maze.Length1, q) && maze[q.0, q.1] == ROOM
    ensures RowMajor(positions)
  {
    ghost var keep := IsRoomIn(Rows(maze));
    positions := [];
    for i := 0 to maze.Length0
      invariant positions == ScanRect(0, i, 0, maze.Length1, keep)
    {
      for j := 0 to maze.Length1
        invariant positions == ScanRect(0, i, 0, maze.Length1, keep) + ScanRow(i, 0, j, keep)
      {
        if maze[i, j] == ROOM {
          positions := positions + [(i, j)];
        }
      }
    }
    ScanRectFacts(0, maze.Length0, 0, maze.Length1, keep);
  }

  /** The position lies on the first or last row. */
  predicate OnBorderRow(p: Pos, rows: int) {
    p.0 == 0 || p.0 == rows - 1
  }

  predicate OnBorderColumn(p: Pos, cols: int) {
    p.1 == 0 || p.1 == cols - 1
  }

  predicate IsCorner(p: Pos, rows: int, cols: int) {
    OnBorderRow(p, rows) && OnBorderColumn(p, cols)
  }

  predicate IsEdge(p: Pos, rows: int, cols: int) {
    (OnBorderRow(p, rows) || OnBorderColumn(p, cols)) && !IsCorner(p, rows, cols)
  }

  /** The elements of s that keep holds, in order. */
  function Filter(s: seq<Pos>, keep: Pos -> bool): (r: seq<Pos>)
    ensures |r| <= |s|
    ensures forall q :: q in r <==> q in s && keep(q)
  {
    if s == [] then [] else (if keep(s[0]) then [s[0]] else []) + Filter(s[1..], keep)
  }

  lemma {:induction false} FilterSnoc(s: seq<Pos>, keep: Pos -> bool, x: Pos)
    ensures Filter(s + [x], keep) == Filter(s, keep) + (if keep(x) then [x] else [])
  {
    if s == [] {
      assert [] + [x] == [x] && [x][1..] == [];
    } else {
      assert (s + [x])[1..] == s[1..] + [x];
      FilterSnoc(s[1..], keep, x);
    }
  }

  /** The corner and the edge lists _place_random_exit builds: disjoint, and each
      is the part of the room list on the border that is (or is not) a corner. */
  method BorderPositions(positions: seq<Pos>, rows: int, cols: int) returns (edges: seq<Pos>, corners: seq<Pos>)
    ensures corners == Filter(positions, p => IsCorner(p, rows, cols))
    ensures edges == Filter(positions, p => IsEdge(p, rows, cols))
    ensures forall q :: q in corners ==> q in positions && OnBorderRow(q, rows) && OnBorderColumn(q, cols)
    ensures forall q :: q in edges ==> q in positions && (OnBorderRow(q, rows) || OnBorderColumn(q, cols))
    ensures forall q :: q in edges ==> q !in corners
  {
    edges, corners := [], [];
    for k := 0 to |positions|
      invariant corners == Filter(positions[..k], p => IsCorner(p, rows, cols))
      invariant edges == Filter(positions[..k], p => IsEdge(p, rows, cols))
    {
      var p := positions[k];
      var isEdge := p.0 == 0 || p.0 == rows - 1 || p.1 == 0 || p.1 == cols - 1;
      var isCorner := (p.0 == 0 || p.0 == rows - 1) && (p.1 == 0 || p.1 == cols - 1);
      if isCorner {
        corners := corners + [p];
      } else if isEdge {
        edges := edges + [p];
      }
      assert positions[..k + 1] == positions[..k] + [p];
      FilterSnoc(positions[..k], p => IsCorner(p, rows, cols), p);
      FilterSnoc(positions[..k], p => IsEdge(p, rows, cols), p);
    }
    assert positions[..|positions|] == positions;
  }

  /** _place_random_exit: a corner room with probability 0.4 when there is one,
      else a border room with probability 0.6 when there is one, else any room;
      only that cell changes, to EXIT. */
  method PlaceRandomExit(maze: array2<int>, roomPositions: seq<Pos>, cornerDraw: real, edgeDraw: real, pick: nat)
    returns (exitPos: Pos)
    requires |roomPositions| > 0
    requires forall q :: q in roomPositions ==> InGrid(maze.Length0, maze.Length1, q)
    modifies maze
    ensures exitPos in roomPositions
    ensures forall i, j :: 0 <= i < maze.Length0 && 0 <= j < maze.Length1 ==>
      maze[i, j] == if (i, j) == exitPos then EXIT else old(maze[i, j])
    ensures var corners := Filter(roomPositions, p => IsCorner(p, maze.Length0, maze.Length1));
            var edges := Filter(roomPositions, p => IsEdge(p, maze.Length0, maze.Length1));
            (|corners| > 0 && cornerDraw < 0.4 ==> IsCorner(exitPos, maze.Length0, maze.Length1))
            && (!(|corners| > 0 && cornerDraw < 0.4) && |edges| > 0 && edgeDraw < 0.6 ==>
                  IsEdge(exitPos, maze.Length0, maze.Length1))
  {
    var edges, corners := BorderPositions(roomPositions, maze.Length0, maze.Length1);
    if |corners| > 0 && cornerDraw < 0.4 {
      exitPos := corners[pick % |corners|];
      assert exitPos in corners;
    } else if |edges| > 0 && edgeDraw < 0.6 {
      exitPos := edges[pick % |edges|];
      assert exitPos in edges;
    } else {
      exitPos := roomPositions[pick % |roomPositions|];
    }
    assert exitPos in roomPositions;
    maze[exitPos.0, exitPos.1] := EXIT;
  }

  /** The part of the DP page that holds the maze. */
  class DpFrame {
    var currentMaze: array2?<int>

    constructor (maze: array2?<int>)
      ensures currentMaze == maze
    {
      currentMaze := maze;
    }

    /** _generate_new_exit: without a maze nothing happens; otherwise the exits of
        a copy are reset, and when the copy has a ROOM one of them becomes the
        only EXIT and the copy becomes the current maze. */
    method GenerateNewExit(cornerDraw: real, edgeDraw: real, pick: nat) returns (placed: Option<Pos>)
      modifies this
      ensures old(currentMaze) == null ==> placed.None? && currentMaze == null
      ensures placed.None? ==> currentMaze == old(currentMaze)
      ensures placed.Some? ==>
        old(currentMaze) != null && currentMaze != null && fresh(currentMaze)
        && currentMaze.Length0 == old(currentMaze).Length0 && currentMaze.Length1 == old(currentMaze).Length1
        && InGrid(currentMaze.Length0, currentMaze.Length1, placed.value)
        && CellCount(currentMaze, EXIT) == 1
        && currentMaze[placed.value.0, placed.value.1] == EXIT
        && ResetCell(old(currentMaze[placed.value.0, placed.value.1])) == ROOM
        && forall i, j :: 0 <= i < currentMaze.Length0 && 0 <= j < currentMaze.Length1 && (i, j) != placed.value ==>
             currentMaze[i, j] == ResetCell(old(currentMaze[i, j]))
      ensures old(currentMaze) != null && placed.None? ==>
        forall i, j :: 0 <= i < old(currentMaze).Length0 && 0 <= j < old(currentMaze).Length1 ==>
          ResetCell(old(currentMaze[i, j])) != ROOM
    {
      if currentMaze == null {
        return None;
      }
      var copy;
      copy, placed := NewExitGrid(currentMaze, cornerDraw, edgeDraw, pick);
      if placed.Some? {
        currentMaze := copy;
      }
    }
  }

  /** The grid _generate_new_exit builds from current: a copy with its exits reset
      and, when the copy has a ROOM, one of them made the only EXIT; none placed
      when the reset copy has no ROOM. current is only read. */
  method NewExitGrid(current: array2<int>, cornerDraw: real, edgeDraw: real, pick: nat)
    returns (copy: array2<int>, placed: Option<Pos>)
    ensures fresh(copy) && copy.Length0 == current.Length0 && copy.Length1 == current.Length1
    ensures placed.Some? ==>
      InGrid(copy.Length0, copy.Length1, placed.value)
      && CellCount(copy, EXIT) == 1
      && copy[placed.value.0, placed.value.1] == EXIT
      && ResetCell(current[placed.value.0, placed.value.1]) == ROOM
      && forall i, j :: 0 <= i < copy.Length0 && 0 <= j < copy.Length1 && (i, j) != placed.value ==>
           copy[i, j] == ResetCell(current[i, j])
    ensures placed.None? ==>
      forall i, j :: 0 <= i < current.Length0 && 0 <= j < current.Length1 ==> ResetCell(current[i, j]) != ROOM
  {
    var oldExitCount;
    copy, oldExitCount := ResetExits(current);
    var rooms := FindRoomPositions(copy);
    if |rooms| == 0 {
      NoRoomCells(copy, rooms);
      return copy, None;
    }
    var p := PlaceOnlyExit(copy, rooms, cornerDraw, edgeDraw, pick);
    placed := Some(p);
  }

  /** No ROOM cell is listed in an empty list of the ROOM cells. */
  lemma NoRoomCells(maze: array2<int>, rooms: seq<Pos>)
    requires rooms == []
    requires forall q :: q in rooms <==> InGrid(maze.Length0, maze.Length1, q) && maze[q.0, q.1] == ROOM
    ensures forall i, j :: 0 <= i < maze.Length0 && 0 <= j < maze.Length1 ==> maze[i, j] != ROOM
  {
    forall i, j | 0 <= i < maze.Length0 && 0 <= j < maze.Length1 ensures maze[i, j] != ROOM {
      assert (i, j) !in rooms;
    }
  }

  /** The exit placement on a grid without EXIT cells: the ROOM drawn becomes
      the only EXIT. */
  method PlaceOnlyExit(maze: array2<int>, rooms: seq<Pos>, cornerDraw: real, edgeDraw: real, pick: nat)
    returns (p: Pos)
    requires |rooms| > 0
    requires forall q :: q in rooms <==> InGrid(maze.Length0, maze.Length1, q) && maze[q.0, q.1] == ROOM
    requires forall i, j :: 0 <= i < maze.Length0 && 0 <= j < maze.Length1 ==> maze[i, j] != EXIT
    modifies maze
    ensures InGrid(maze.Length0, maze.Length1, p) && old(maze[p.0, p.1]) == ROOM
    ensures forall i, j :: 0 <= i < maze.Length0 && 0 <= j < maze.Length1 ==>
      maze[i, j] == if (i, j) == p then EXIT else old(maze[i, j])
    ensures CellCount(maze, EXIT) == 1
  {
    p := PlaceRandomExit(maze, rooms, cornerDraw, edgeDraw, pick);
    assert forall i, j :: 0 <= i < maze.Length0 && 0 <= j < maze.Length1 && (i != p.0 || j != p.1) ==>
      maze[i, j] != EXIT;
    CountOne(maze, maze.Length0, EXIT, p);
  }
}
