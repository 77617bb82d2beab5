/** The shared grid vocabulary: the integer cell codes, the four directions with
    their unit deltas, positions, 4-adjacency and rectangular grids. */
module Cells {
  import opened Outcomes

  // The wire-format cell codes (MazeConfig.CellType).
  const UNVISITED: int := -2
  const WALL: int := -1
  const ROOM: int := 0
  const VISITED: int := 2
  const PLAYER: int := 3
  const EXIT: int := 4

  datatype CellType = Unvisited | Wall | Room | Visited | Player | Exit {
    function Code(): int {
      match this
      case Unvisited => UNVISITED
      case Wall => WALL
      case Room => ROOM
      case Visited => VISITED
      case Player => PLAYER
      case Exit => EXIT
    }
  }

  /** Reads a code back; codes outside the enumeration are rejected. */
  function FromCode(c: int): (r: Option<CellType>)
    ensures r.Some? ==> r.value.Code() == c
    ensures r.None? <==> c !in {UNVISITED, WALL, ROOM, VISITED, PLAYER, EXIT}
  {
    if c == UNVISITED then Some(Unvisited)
    else if c == WALL then Some(Wall)
    else if c == ROOM then Some(Room)
    else if c == VISITED then Some(Visited)
    else if c == PLAYER then Some(Player)
    else if c == EXIT then Some(Exit)
    else None
  }

  lemma CodeRoundTrip(t: CellType)
    ensures FromCode(t.Code()) == Some(t)
  {
  }

  /** Exactly one code is impassable. */
  lemma OnlyWallImpassable(t: CellType)
    ensures t.Code() == WALL <==> t == Wall
  {
  }

  /** MazeConfig.Direction, in the enumeration's own order UP, DOWN, LEFT, RIGHT. */
  datatype Direction = Up | Down | Left | Right {
    function Delta(): (int, int) {
      match this
      case Up => (-1, 0)
      case Down => (1, 0)
      case Left => (0, -1)
      case Right => (0, 1)
    }
  }

  /** Direction.name, the key of the direction in a weight map. */
  function DirectionName(d: Direction): string {
    match d
    case Up => "UP"
    case Down => "DOWN"
    case Left => "LEFT"
    case Right => "RIGHT"
  }

  const AllDirections: seq<Direction> := [Up, Down, Left, Right]

  /** A sequence holding each of the four directions exactly once. */
  predicate IsDirectionOrder(ds: seq<Direction>) {
    |ds| == 4 && Distinct(ds) && Up in ds && Down in ds && Left in ds && Right in ds
  }

  lemma AllDirectionsIsOrder()
    ensures IsDirectionOrder(AllDirections)
  {
  }

  type Pos = (int, int)

  function Step(p: Pos, d: Direction): Pos {
    (p.0 + d.Delta().0, p.1 + d.Delta().1)
  }

  function Abs(x: int): nat {
    if x < 0 then -x else x
  }

  /** Manhattan distance (MazeGame._calculate_distance). */
  function Manhattan(p: Pos, q: Pos): nat {
    Abs(p.0 - q.0) + Abs(p.1 - q.1)
  }

  predicate Adjacent(p: Pos, q: Pos) {
    Manhattan(p, q) == 1
  }

  lemma StepIsAdjacent(p: Pos, d: Direction)
    ensures Adjacent(p, Step(p, d)) && Adjacent(Step(p, d), p)
  {
  }

  /** Two different directions lead from one cell to two different cells. */
  lemma StepInjective(p: Pos, d: Direction, e: Direction)
    requires Step(p, d) == Step(p, e)
    ensures d == e
  {
  }

  /** Every 4-neighbour of a cell is reached by one of the four directions. */
  lemma AdjacentIsStep(p: Pos, q: Pos) returns (d: Direction)
    requires Adjacent(p, q)
    ensures q == Step(p, d)
  {
    if q.0 == p.0 - 1 { d := Up; }
    else if q.0 == p.0 + 1 { d := Down; }
    else if q.1 == p.1 - 1 { d := Left; }
    else { d := Right; }
  }

  /** The geometric fact behind the generator's region count: two 4-neighbours of
      one cell are never 4-adjacent to each other (they differ in parity). */
  lemma NeighboursNotAdjacent(p: Pos, d: Direction, e: Direction)
    ensures !Adjacent(Step(p, d), Step(p, e))
  {
  }

  /** The cells one step from p in the given directions, in that order, that pass keep. */
  function StepsWhere(p: Pos, order: seq<Direction>, keep: Pos -> bool): (r: seq<Pos>)
    ensures |r| <= |order|
    ensures forall k :: 0 <= k < |r| ==> keep(r[k]) && Adjacent(p, r[k])
  {
    if order == [] then []
    else
      var q := Step(p, order[0]);
      StepIsAdjacent(p, order[0]);
      (if keep(q) then [q] else []) + StepsWhere(p, order[1..], keep)
  }

  /** The one-element list [q] when q passes keep, otherwise the empty list. */
  function KeptStep(q: Pos, keep: Pos -> bool): seq<Pos> {
    if keep(q) then [q] else []
  }

  lemma {:induction false} StepsWhereCons(p: Pos, d: Direction, rest: seq<Direction>, keep: Pos -> bool)
    ensures StepsWhere(p, [d] + rest, keep) == KeptStep(Step(p, d), keep) + StepsWhere(p, rest, keep)
  {
    assert ([d] + rest)[1..] == rest;
  }

  lemma {:induction false} StepsWhereFour(p: Pos, a: Direction, b: Direction, c: Direction, d: Direction, keep: Pos -> bool)
    ensures StepsWhere(p, [a, b, c, d], keep)
         == KeptStep(Step(p, a), keep) + (KeptStep(Step(p, b), keep) + (KeptStep(Step(p, c), keep) + KeptStep(Step(p, d), keep)))
  {
    var kd := StepsWhere(p, [d], keep);
    assert kd == KeptStep(Step(p, d), keep) by {
      StepsWhereCons(p, d, [], keep);
      assert [d] + [] == [d];
    }
    var kc := StepsWhere(p, [c, d], keep);
    assert kc == KeptStep(Step(p, c), keep) + kd by {
      StepsWhereCons(p, c, [d], keep);
      assert [c] + [d] == [c, d];
    }
    var kb := StepsWhere(p, [b, c, d], keep);
    assert kb == KeptStep(Step(p, b), keep) + kc by {
      StepsWhereCons(p, b, [c, d], keep);
      assert [b] + [c, d] == [b, c, d];
    }
    assert StepsWhere(p, [a, b, c, d], keep) == KeptStep(Step(p, a), keep) + kb by {
      StepsWhereCons(p, a, [b, c, d], keep);
      assert [a] + [b, c, d] == [a, b, c, d];
    }
  }

  /** Scanning in the fixed order up, down, left, right lists the kept cells one by one. */
  lemma StepsWhereAll(p: Pos, order: seq<Direction>, keep: Pos -> bool)
    requires order == AllDirections
    ensures StepsWhere(p, order, keep)
         == KeptStep((p.0 - 1, p.1), keep)
          + (KeptStep((p.0 + 1, p.1), keep) + (KeptStep((p.0, p.1 - 1), keep) + KeptStep((p.0, p.1 + 1), keep)))
  {
    assert order == [order[0], order[1], order[2], order[3]];
    assert Step(p, order[0]) == (p.0 - 1, p.1) && Step(p, order[1]) == (p.0 + 1, p.1);
    assert Step(p, order[2]) == (p.0, p.1 - 1) && Step(p, order[3]) == (p.0, p.1 + 1);
    StepsWhereFour(p, order[0], order[1], order[2], order[3], keep);
  }

  /** Every kept step in the order is listed. */
  lemma {:induction false} StepsWhereComplete(p: Pos, order: seq<Direction>, keep: Pos -> bool, d: Direction)
    requires d in order && keep(Step(p, d))
    ensures Step(p, d) in StepsWhere(p, order, keep)
  {
    if order[0] != d {
      StepsWhereComplete(p, order[1..], keep, d);
    }
  }

  /** Only steps in the order are listed. */
  lemma {:induction false} StepsWhereSound(p: Pos, order: seq<Direction>, keep: Pos -> bool, q: Pos)
    requires q in StepsWhere(p, order, keep)
    ensures exists d :: d in order && q == Step(p, d)
  {
    if q != Step(p, order[0]) {
      StepsWhereSound(p, order[1..], keep, q);
      var d :| d in order[1..] && q == Step(p, d);
      assert d in order;
    }
  }

  /** Distinct directions give distinct cells. */
  lemma {:induction false} StepsWhereDistinct(p: Pos, order: seq<Direction>, keep: Pos -> bool)
    requires Distinct(order)
    ensures Distinct(StepsWhere(p, order, keep))
  {
    if order != [] {
      var tail := StepsWhere(p, order[1..], keep);
      assert Distinct(order[1..]);
      StepsWhereDistinct(p, order[1..], keep);
      if keep(Step(p, order[0])) && Step(p, order[0]) in tail {
        StepsWhereSound(p, order[1..], keep, Step(p, order[0]));
        var d :| d in order[1..] && Step(p, order[0]) == Step(p, d);
        StepInjective(p, order[0], d);
        assert false;
      }
    }
  }

  /** The listed cells are pairwise not 4-adjacent. */
  lemma StepsWhereNotAdjacent(p: Pos, order: seq<Direction>, keep: Pos -> bool, a: Pos, b: Pos)
    requires a in StepsWhere(p, order, keep) && b in StepsWhere(p, order, keep)
    ensures !Adjacent(a, b)
  {
    StepsWhereSound(p, order, keep, a);
    StepsWhereSound(p, order, keep, b);
    var d :| d in order && a == Step(p, d);
    var e :| e in order && b == Step(p, e);
    NeighboursNotAdjacent(p, d, e);
  }

  function InGrid(height: int, width: int, p: Pos): bool {
    0 <= p.0 < height && 0 <= p.1 < width
  }

  /** All positions of a height x width grid. */
  function AllCells(height: nat, width: nat): set<Pos> {
    set i, j | 0 <= i < height && 0 <= j < width :: (i, j)
  }

  function RowCells(i: int, width: nat): set<Pos> {
    set j | 0 <= j < width :: (i, j)
  }

  lemma {:induction false} RowCellsCard(i: int, width: nat)
    ensures |RowCells(i, width)| == width
  {
    if width > 0 {
      RowCellsCard(i, width - 1);
      assert RowCells(i, width) == RowCells(i, width - 1) + {(i, width - 1)};
    } else {
      assert RowCells(i, width) == {};
    }
  }

  lemma AllCellsSplit(height: nat, width: nat)
    requires height > 0
    ensures AllCells(height, width) == AllCells(height - 1, width) + RowCells(height - 1, width)
    ensures AllCells(height - 1, width) !! RowCells(height - 1, width)
  {
    var upper, row := AllCells(height - 1, width), RowCells(height - 1, width);
    forall p | p in AllCells(height, width) ensures p in upper + row {
      if p.0 < height - 1 { assert p in upper; } else { assert p in row; }
    }
  }

  /** A grid has height * width cells. */
  lemma {:induction false} AllCellsCard(height: nat, width: nat)
    ensures |AllCells(height, width)| == height * width
  {
    if height > 0 {
      AllCellsCard(height - 1, width);
      RowCellsCard(height - 1, width);
      AllCellsSplit(height, width);
      assert (height - 1) * width + width == height * width;
    } else {
      assert AllCells(height, width) == {};
    }
  }

  /** A list of lists where every row has the length of the first. */
  predicate Rectangular(g: seq<seq<int>>) {
    forall i :: 0 <= i < |g| ==> |g[i]| == |g[0]|
  }

  function Width(g: seq<seq<int>>): nat {
    if |g| == 0 then 0 else |g[0]|
  }

  /** The contents of a two-dimensional array as a list of rows. */
  function Rows<T>(a: array2<T>): (g: seq<seq<T>>)
    reads a
    ensures |g| == a.Length0
    ensures forall i :: 0 <= i < a.Length0 ==> |g[i]| == a.Length1
    ensures forall i, j :: 0 <= i < a.Length0 && 0 <= j < a.Length1 ==> g[i][j] == a[i, j]
  {
    RowsUpTo(a, a.Length0)
  }

  /** The first m rows of a. */
  function RowsUpTo<T>(a: array2<T>, m: nat): (g: seq<seq<T>>)
    requires m <= a.Length0
    reads a
    ensures |g| == m && forall i :: 0 <= i < m ==> g[i] == RowOf(a, i, a.Length1)
  {
    if m == 0 then [] else RowsUpTo(a, m - 1) + [RowOf(a, m - 1, a.Length1)]
  }

  /** The first n cells of row i of a. */
  function RowOf<T>(a: array2<T>, i: nat, n: nat): (r: seq<T>)
    requires i < a.Length0 && n <= a.Length1
    reads a
    ensures |r| == n && forall j :: 0 <= j < n ==> r[j] == a[i, j]
  {
    if n == 0 then [] else RowOf(a, i, n - 1) + [a[i, n - 1]]
  }

  /** The row view of an array after one cell of it was written. */
  lemma RowsAfterWrite<T>(a: array2<T>, g: seq<seq<T>>, p: Pos, v: T)
    requires |g| == a.Length0 && forall i :: 0 <= i < |g| ==> |g[i]| == a.Length1
    requires 0 <= p.0 < a.Length0 && 0 <= p.1 < a.Length1
    requires forall i, j :: 0 <= i < a.Length0 && 0 <= j < a.Length1 ==>
      a[i, j] == if (i, j) == p then v else g[i][j]
    ensures Rows(a) == Write(g, p, v)
  {
    var r, w := Rows(a), Write(g, p, v);
    forall i | 0 <= i < |g| ensures r[i] == w[i] {
      assert forall j :: 0 <= j < a.Length1 ==> r[i][j] == w[i][j];
    }
  }

  /** g has rows rows of cols cells each. */
  predicate Shaped<T>(g: seq<seq<T>>, rows: nat, cols: nat) {
    |g| == rows && forall i :: 0 <= i < rows ==> |g[i]| == cols
  }

  /** An array and a grid holding the same cells have the same row view. */
  lemma RowsAre<T>(a: array2<T>, g: seq<seq<T>>)
    requires Shaped(g, a.Length0, a.Length1)
    requires forall i, j :: 0 <= i < a.Length0 && 0 <= j < a.Length1 ==> a[i, j] == g[i][j]
    ensures Rows(a) == g
  {
    var r := Rows(a);
    forall i | 0 <= i < |g| ensures r[i] == g[i] {
      assert forall j :: 0 <= j < a.Length1 ==> r[i][j] == g[i][j];
    }
  }

  /** Writing a cell's own value back changes nothing. */
  lemma WriteSame<T>(g: seq<seq<T>>, p: Pos)
    requires 0 <= p.0 < |g| && 0 <= p.1 < |g[p.0]|
    ensures Write(g, p, g[p.0][p.1]) == g
  {
    assert Write(g, p, g[p.0][p.1])[p.0] == g[p.0];
  }

  /** A sweep in progress: the cells of w before (i, j) in row-major order, the
      cells of v from (i, j) on. */
  function Blend<T>(v: seq<seq<T>>, w: seq<seq<T>>, i: int, j: int): (r: seq<seq<T>>)
    requires |w| == |v| && forall k :: 0 <= k < |v| ==> |w[k]| == |v[k]|
    ensures |r| == |v| && forall k :: 0 <= k < |v| ==> |r[k]| == |v[k]|
    ensures forall a, b :: 0 <= a < |v| && 0 <= b < |v[a]| ==>
      r[a][b] == if a < i || (a == i && b < j) then w[a][b] else v[a][b]
  {
    BlendRows(v, w, i, j, |v|)
  }

  /** The first m rows of Blend(v, w, i, j). */
  function BlendRows<T>(v: seq<seq<T>>, w: seq<seq<T>>, i: int, j: int, m: nat): (r: seq<seq<T>>)
    requires |w| == |v| && forall k :: 0 <= k < |v| ==> |w[k]| == |v[k]|
    requires m <= |v|
    ensures |r| == m && forall a :: 0 <= a < m ==> r[a] == BlendRow(v, w, i, j, a, |v[a]|)
  {
    if m == 0 then [] else BlendRows(v, w, i, j, m - 1) + [BlendRow(v, w, i, j, m - 1, |v[m - 1]|)]
  }

  /** The first n cells of row a of Blend(v, w, i, j). */
  function BlendRow<T>(v: seq<seq<T>>, w: seq<seq<T>>, i: int, j: int, a: nat, n: nat): (r: seq<T>)
    requires |w| == |v| && a < |v| && |w[a]| == |v[a]| && n <= |v[a]|
    ensures |r| == n && forall b :: 0 <= b < n ==> r[b] == if a < i || (a == i && b < j) then w[a][b] else v[a][b]
  {
    if n == 0 then []
    else BlendRow(v, w, i, j, a, n - 1) + [if a < i || (a == i && n - 1 < j) then w[a][n - 1] else v[a][n - 1]]
  }

  lemma BlendEnds<T>(v: seq<seq<T>>, w: seq<seq<T>>)
    requires |w| == |v| && forall k :: 0 <= k < |v| ==> |w[k]| == |v[k]|
    ensures Blend(v, w, 0, 0) == v && Blend(v, w, |v|, 0) == w
  {
    var s, t := Blend(v, w, 0, 0), Blend(v, w, |v|, 0);
    forall a | 0 <= a < |v| ensures s[a] == v[a] && t[a] == w[a] {
      assert forall b :: 0 <= b < |v[a]| ==> s[a][b] == v[a][b] && t[a][b] == w[a][b];
    }
  }

  lemma BlendNextRow<T>(v: seq<seq<T>>, w: seq<seq<T>>, i: int)
    requires |w| == |v| && forall k :: 0 <= k < |v| ==> |w[k]| == |v[k]|
    requires 0 <= i < |v|
    ensures Blend(v, w, i, |v[i]|) == Blend(v, w, i + 1, 0)
  {
    var s, t := Blend(v, w, i, |v[i]|), Blend(v, w, i + 1, 0);
    forall a | 0 <= a < |v| ensures s[a] == t[a] {
      assert forall b :: 0 <= b < |v[a]| ==> s[a][b] == t[a][b];
    }
  }

  /** Storing w's cell at (i, j) advances the sweep by one cell. */
  lemma BlendStep<T>(v: seq<seq<T>>, w: seq<seq<T>>, i: int, j: int)
    requires |w| == |v| && forall k :: 0 <= k < |v| ==> |w[k]| == |v[k]|
    requires 0 <= i < |v| && 0 <= j < |v[i]|
    ensures Write(Blend(v, w, i, j), (i, j), w[i][j]) == Blend(v, w, i, j + 1)
  {
    var s, t := Write(Blend(v, w, i, j), (i, j), w[i][j]), Blend(v, w, i, j + 1);
    forall a | 0 <= a < |v| ensures s[a] == t[a] {
      assert forall b :: 0 <= b < |v[a]| ==> s[a][b] == t[a][b];
    }
  }

  /** The cell at p holds code. */
  predicate HasCode(g: seq<seq<int>>, p: Pos, code: int) {
    0 <= p.0 < |g| && 0 <= p.1 < |g[p.0]| && g[p.0][p.1] == code
  }

  /** g with the cell p set to code. */
  function Write<T>(g: seq<seq<T>>, p: Pos, v: T): (r: seq<seq<T>>)
    requires 0 <= p.0 < |g| && 0 <= p.1 < |g[p.0]|
    ensures |r| == |g| && forall i :: 0 <= i < |g| ==> |r[i]| == |g[i]|
    ensures forall i, j :: 0 <= i < |g| && 0 <= j < |g[i]| ==> r[i][j] == if (i, j) == p then v else g[i][j]
  {
    g[p.0 := g[p.0][p.1 := v]]
  }

  /** The 4-neighbours of p, in the given direction order, that hold code. */
  function NeighborsWith(g: seq<seq<int>>, p: Pos, order: seq<Direction>, code: int): seq<Pos> {
    StepsWhere(p, order, q => HasCode(g, q, code))
  }

  /** Appending one direction appends at most its one cell. */
  lemma {:induction false} StepsWhereSnoc(p: Pos, order: seq<Direction>, d: Direction, keep: Pos -> bool)
    ensures StepsWhere(p, order + [d], keep)
         == StepsWhere(p, order, keep) + (if keep(Step(p, d)) then [Step(p, d)] else [])
  {
    if order == [] {
      assert [] + [d] == [d];
      assert [d][1..] == [];
    } else {
      assert (order + [d])[1..] == order[1..] + [d];
      StepsWhereSnoc(p, order[1..], d, keep);
    }
  }

  /** Scanning one more direction appends its cell exactly when that cell holds the code. */
  lemma NeighborsWithSnoc(g: seq<seq<int>>, p: Pos, order: seq<Direction>, d: Direction, code: int)
    ensures NeighborsWith(g, p, order + [d], code)
         == NeighborsWith(g, p, order, code) + (if HasCode(g, Step(p, d), code) then [Step(p, d)] else [])
  {
    StepsWhereSnoc(p, order, d, q => HasCode(g, q, code));
  }

  /** What the neighbour lists of a grid cell are: distinct cells holding the code,
      4-adjacent to p and pairwise not adjacent; for a full direction order, every
      such cell. */
  lemma NeighborsWithFacts(g: seq<seq<int>>, p: Pos, order: seq<Direction>, code: int)
    requires Distinct(order)
    ensures Distinct(NeighborsWith(g, p, order, code))
    ensures |NeighborsWith(g, p, order, code)| <= |order|
    ensures forall q :: q in NeighborsWith(g, p, order, code) ==> HasCode(g, q, code) && Adjacent(p, q)
    ensures IsDirectionOrder(order) ==>
      forall q :: HasCode(g, q, code) && Adjacent(p, q) ==> q in NeighborsWith(g, p, order, code)
    ensures forall a, b ::
      (a in NeighborsWith(g, p, order, code) && b in NeighborsWith(g, p, order, code) ==> !Adjacent(a, b))
  {
    var keep := q => HasCode(g, q, code);
    StepsWhereDistinct(p, order, keep);
    if IsDirectionOrder(order) {
      forall q | HasCode(g, q, code) && Adjacent(p, q) ensures q in NeighborsWith(g, p, order, code) {
        var d := AdjacentIsStep(p, q);
        StepsWhereComplete(p, order, keep, d);
      }
    }
    forall a, b | a in NeighborsWith(g, p, order, code) && b in NeighborsWith(g, p, order, code)
      ensures !Adjacent(a, b)
    {
      StepsWhereNotAdjacent(p, order, keep, a, b);
    }
  }

  /** Number of elements equal to v in a sequence. */
  function Count<T(==)>(s: seq<T>, v: T): (n: nat)
    ensures n <= |s|
  {
    if s == [] then 0 else (if s[0] == v then 1 else 0) + Count(s[1..], v)
  }

  /** Cells (x, y0), ..., (x, y1 - 1) that keep holds, left to right. */
  function ScanRow(x: int, y0: int, y1: int, keep: Pos -> bool): seq<Pos>
    decreases y1 - y0
  {
    if y1 <= y0 then [] else ScanRow(x, y0, y1 - 1, keep) + (if keep((x, y1 - 1)) then [(x, y1 - 1)] else [])
  }

  /** Cells of rows x0 .. x1 - 1 and columns y0 .. y1 - 1 that keep holds, in
      row-major order. */
  function ScanRect(x0: int, x1: int, y0: int, y1: int, keep: Pos -> bool): seq<Pos>
    decreases x1 - x0
  {
    if x1 <= x0 then [] else ScanRect(x0, x1 - 1, y0, y1, keep) + ScanRow(x1 - 1, y0, y1, keep)
  }

  /** p comes before q in row-major order. */
  predicate Before(p: Pos, q: Pos) {
    p.0 < q.0 || (p.0 == q.0 && p.1 < q.1)
  }

  predicate RowMajor(s: seq<Pos>) {
    forall i, j :: 0 <= i < j < |s| ==> Before(s[i], s[j])
  }

  lemma {:induction false} ScanRowFacts(x: int, y0: int, y1: int, keep: Pos -> bool)
    ensures forall q :: q in ScanRow(x, y0, y1, keep) <==> q.0 == x && y0 <= q.1 < y1 && keep(q)
    ensures RowMajor(ScanRow(x, y0, y1, keep))
    decreases y1 - y0
  {
    if y0 < y1 {
      ScanRowFacts(x, y0, y1 - 1, keep);
    }
  }

  /** A scan lists exactly the cells of the rectangle that keep holds, each once,
      in row-major order. */
  lemma {:induction false} ScanRectFacts(x0: int, x1: int, y0: int, y1: int, keep: Pos -> bool)
    ensures forall q :: q in ScanRect(x0, x1, y0, y1, keep) <==> x0 <= q.0 < x1 && y0 <= q.1 < y1 && keep(q)
    ensures RowMajor(ScanRect(x0, x1, y0, y1, keep))
    decreases x1 - x0
  {
    if x0 < x1 {
      ScanRectFacts(x0, x1 - 1, y0, y1, keep);
      ScanRowFacts(x1 - 1, y0, y1, keep);
    }
  }

  /** Number of cells holding code v in a grid. */
  function GridCount(g: seq<seq<int>>, v: int): nat {
    if g == [] then 0 else Count(g[0], v) + GridCount(g[1..], v)
  }

  /** Distinct elements. */
  predicate Distinct<T(==)>(s: seq<T>) {
    forall i, j :: 0 <= i < j < |s| ==> s[i] != s[j]
  }

  lemma {:induction false} DistinctCard<T>(s: seq<T>)
    requires Distinct(s)
    ensures |set x | x in s| == |s|
  {
    if s != [] {
      DistinctCard(s[1..]);
      assert (set x | x in s) == (set x | x in s[1..]) + {s[0]};
      assert s[0] !in (set x | x in s[1..]);
    } else {
      assert (set x | x in s) == {};
    }
  }
}
