/** The dynamic-programming solver of MazeDP.py: the maze as a deterministic MDP
    whose states are the cells, whose actions are the four moves (a move into a
    wall or off the grid stays put), with a reward per cell; value iteration,
    policy extraction and policy iteration over numpy arrays updated in place.
    The arrays are `array2` fields of the class `Solver`; every sweep is specified
    by a pure function of the arrays' contents (a `Mdp` value holds the maze, the
    rewards, the terminal cells and the discount factor). Numbers are `real`. */
module MazeDp {
  import opened Outcomes
  import opened Cells

  /** Action indices 0..3 are up, right, down, left. */
  const ACTIONS: seq<Direction> := [Up, Right, Down, Left]
  const ACTION_NAMES: seq<string> := ["UP", "RIGHT", "DOWN", "LEFT"]

  /** The fixed arguments with which policy_iteration calls _policy_evaluation. */
  const EVAL_THETA: real := 0.0001
  const EVAL_MAX_ITERATIONS: nat := 100

  /** Python raises UnboundLocalError when value_iteration or policy_iteration
      reads its loop variable after a loop of no rounds. */
  const UNBOUND_ITERATION: string := "UnboundLocalError: local variable 'iteration' referenced before assignment"

  // ---------------------------------------------------------------------------
  // Numbers

  function AbsR(x: real): (r: real)
    ensures r >= 0.0 && (r == x || r == -x)
  {
    if x < 0.0 then -x else x
  }

  /** Python's max(a, b) on numbers: b only when it is larger. */
  function MaxR(a: real, b: real): (r: real)
    ensures r >= a && r >= b && (r == a || r == b)
  {
    if b > a then b else a
  }

  /** max(s): the greatest element. */
  function MaxOf(s: seq<real>): (m: real)
    requires |s| > 0
    ensures exists i :: 0 <= i < |s| && s[i] == m
    ensures forall i :: 0 <= i < |s| ==> s[i] <= m
  {
    if |s| == 1 then s[0]
    else
      var t := MaxOf(s[..|s| - 1]);
      assert forall i :: 0 <= i < |s| - 1 ==> s[..|s| - 1][i] == s[i];
      if s[|s| - 1] > t then s[|s| - 1] else t
  }

  /** np.argmax(s): the lowest index holding the greatest element. */
  function Argmax(s: seq<real>): (k: nat)
    requires |s| > 0
    ensures k < |s|
    ensures forall i :: 0 <= i < |s| ==> s[i] <= s[k]
    ensures forall i :: 0 <= i < k ==> s[i] < s[k]
  {
    if |s| == 1 then 0
    else
      var k := Argmax(s[..|s| - 1]);
      assert forall i :: 0 <= i < |s| - 1 ==> s[..|s| - 1][i] == s[i];
      if s[|s| - 1] > s[k] then |s| - 1 else k
  }

  /** The action np.argmax picks attains max: extraction and the value sweep agree. */
  lemma ArgmaxAttainsMax(s: seq<real>)
    requires |s| > 0
    ensures s[Argmax(s)] == MaxOf(s)
  {
  }

  /** The largest |b[j] - a[j]| over the first n cells of a row, 0 when n is 0. */
  function RowDelta(a: seq<real>, b: seq<real>, n: nat): (r: real)
    requires n <= |a| && n <= |b|
    ensures r >= 0.0
  {
    if n == 0 then 0.0 else MaxR(RowDelta(a, b, n - 1), AbsR(b[n - 1] - a[n - 1]))
  }

  /** RowDelta is the largest change in the row, or 0 when n is 0. */
  lemma {:induction false} RowDeltaBounds(a: seq<real>, b: seq<real>, n: nat)
    requires n <= |a| && n <= |b|
    ensures forall j :: 0 <= j < n ==> AbsR(b[j] - a[j]) <= RowDelta(a, b, n)
    ensures RowDelta(a, b, n) == 0.0 || exists j :: 0 <= j < n && RowDelta(a, b, n) == AbsR(b[j] - a[j])
  {
    if n > 0 {
      RowDeltaBounds(a, b, n - 1);
    }
  }

  /** The max_delta of a sweep from a to b over the first m rows of cols cells. */
  function Delta(a: seq<seq<real>>, b: seq<seq<real>>, cols: nat, m: nat): (r: real)
    requires m <= |a| && m <= |b|
    requires forall i :: 0 <= i < m ==> cols <= |a[i]| && cols <= |b[i]|
    ensures r >= 0.0
  {
    if m == 0 then 0.0 else MaxR(Delta(a, b, cols, m - 1), RowDelta(a[m - 1], b[m - 1], cols))
  }

  /** Delta is the largest change of any cell, or 0 when there are no cells: the
      max_delta the sweeps report. */
  lemma {:induction false} DeltaBounds(a: seq<seq<real>>, b: seq<seq<real>>, cols: nat, m: nat)
    requires m <= |a| && m <= |b|
    requires forall i :: 0 <= i < m ==> cols <= |a[i]| && cols <= |b[i]|
    ensures forall i, j :: 0 <= i < m && 0 <= j < cols ==> AbsR(b[i][j] - a[i][j]) <= Delta(a, b, cols, m)
    ensures Delta(a, b, cols, m) == 0.0 ||
      exists i, j :: 0 <= i < m && 0 <= j < cols && Delta(a, b, cols, m) == AbsR(b[i][j] - a[i][j])
  {
    if m > 0 {
      DeltaBounds(a, b, cols, m - 1);
      RowDeltaBounds(a[m - 1], b[m - 1], cols);
    }
  }

  /** Folding one more cell into a sweep's running max_delta. */
  lemma DeltaStep(a: seq<seq<real>>, b: seq<seq<real>>, cols: nat, i: nat, j: nat)
    requires Shaped(a, |a|, cols) && Shaped(b, |a|, cols) && i < |a| && j < cols
    ensures MaxR(MaxR(Delta(a, b, cols, i), RowDelta(a[i], b[i], j)), AbsR(b[i][j] - a[i][j]))
      == MaxR(Delta(a, b, cols, i), RowDelta(a[i], b[i], j + 1))
    ensures b[i][j] == a[i][j] ==>
      MaxR(Delta(a, b, cols, i), RowDelta(a[i], b[i], j)) == MaxR(Delta(a, b, cols, i), RowDelta(a[i], b[i], j + 1))
  {
  }

  /** The running max_delta of a sweep after cell (i, j) changed from v[i][j] to x. */
  lemma RunningDelta(v: seq<seq<real>>, w: seq<seq<real>>, cols: nat, i: nat, j: nat, running: real, x: real)
    requires Shaped(v, |v|, cols) && Shaped(w, |v|, cols) && i < |v| && j < cols
    requires running == MaxR(Delta(v, w, cols, i), RowDelta(v[i], w[i], j)) && x == w[i][j]
    ensures MaxR(running, AbsR(x - v[i][j])) == MaxR(Delta(v, w, cols, i), RowDelta(v[i], w[i], j + 1))
  {
    DeltaStep(v, w, cols, i, j);
  }

  /** A grid of action indices. */
  predicate ActionGrid(pol: seq<seq<int>>, rows: nat, cols: nat) {
    Shaped(pol, rows, cols) && forall i, j :: 0 <= i < rows && 0 <= j < cols ==> 0 <= pol[i][j] < 4
  }

  // ---------------------------------------------------------------------------
  // Rewards

  /** The reward rule of _setup_rewards and update_rewards for one cell code. */
  function RewardOf(code: int, step: real, goal: real, wall: real): real {
    if code == WALL then wall else if code == EXIT then goal else step
  }

  /** The reward grid before custom rewards. */
  function BaseRewards(g: seq<seq<int>>, step: real, goal: real, wall: real): (r: seq<seq<real>>)
    ensures |r| == |g| && forall i :: 0 <= i < |g| ==> |r[i]| == |g[i]|
    ensures forall i, j :: 0 <= i < |g| && 0 <= j < |g[i]| && g[i][j] == WALL ==> r[i][j] == wall
    ensures forall i, j :: 0 <= i < |g| && 0 <= j < |g[i]| && g[i][j] == EXIT ==> r[i][j] == goal
    ensures forall i, j :: 0 <= i < |g| && 0 <= j < |g[i]| && g[i][j] != WALL && g[i][j] != EXIT ==> r[i][j] == step
  {
    BaseRewardRows(g, step, goal, wall, |g|)
  }

  function BaseRewardRows(g: seq<seq<int>>, step: real, goal: real, wall: real, m: nat): (r: seq<seq<real>>)
    requires m <= |g|
    ensures |r| == m && forall i :: 0 <= i < m ==> r[i] == BaseRewardRow(g[i], step, goal, wall, |g[i]|)
  {
    if m == 0 then [] else BaseRewardRows(g, step, goal, wall, m - 1) + [BaseRewardRow(g[m - 1], step, goal, wall, |g[m - 1]|)]
  }

  function BaseRewardRow(row: seq<int>, step: real, goal: real, wall: real, n: nat): (r: seq<real>)
    requires n <= |row|
    ensures |r| == n && forall j :: 0 <= j < n ==> r[j] == RewardOf(row[j], step, goal, wall)
  {
    if n == 0 then [] else BaseRewardRow(row, step, goal, wall, n - 1) + [RewardOf(row[n - 1], step, goal, wall)]
  }

  /** r with the in-grid entries of custom written over it; the rest of custom is ignored. */
  function WithCustom(r: seq<seq<real>>, custom: map<Pos, real>): (s: seq<seq<real>>)
    ensures |s| == |r| && forall i :: 0 <= i < |r| ==> |s[i]| == |r[i]|
    ensures forall i, j :: 0 <= i < |r| && 0 <= j < |r[i]| && (i, j) in custom ==> s[i][j] == custom[(i, j)]
    ensures forall i, j :: 0 <= i < |r| && 0 <= j < |r[i]| && (i, j) !in custom ==> s[i][j] == r[i][j]
  {
    CustomRows(r, custom, |r|)
  }

  function CustomRows(r: seq<seq<real>>, custom: map<Pos, real>, m: nat): (s: seq<seq<real>>)
    requires m <= |r|
    ensures |s| == m && forall i :: 0 <= i < m ==> s[i] == CustomRow(r[i], custom, i, |r[i]|)
  {
    if m == 0 then [] else CustomRows(r, custom, m - 1) + [CustomRow(r[m - 1], custom, m - 1, |r[m - 1]|)]
  }

  /** The first n cells of row i, the custom entries written over r. */
  function CustomRow(row: seq<real>, custom: map<Pos, real>, i: int, n: nat): (s: seq<real>)
    requires n <= |row|
    ensures |s| == n && forall j :: 0 <= j < n ==> s[j] == if (i, j) in custom then custom[(i, j)] else row[j]
  {
    if n == 0 then [] else CustomRow(row, custom, i, n - 1) + [if (i, n - 1) in custom then custom[(i, n - 1)] else row[n - 1]]
  }

  /** The EXIT cells, in row-major order. */
  function IsExitIn(g: seq<seq<int>>): Pos -> bool {
    (q: Pos) => HasCode(g, q, EXIT)
  }

  function IsOpenIn(g: seq<seq<int>>): Pos -> bool {
    (q: Pos) => 0 <= q.0 < |g| && 0 <= q.1 < |g[q.0]| && g[q.0][q.1] != WALL
  }

  function Terminals(g: seq<seq<int>>, rows: nat, cols: nat): seq<Pos> {
    ScanRect(0, rows, 0, cols, IsExitIn(g))
  }

  // ---------------------------------------------------------------------------
  // The MDP

  /** The value and policy grids between rounds of policy iteration. */
  datatype PiState = PiState(values: seq<seq<real>>, policy: seq<seq<int>>)

  datatype Mdp = Mdp(maze: seq<seq<int>>, rewards: seq<seq<real>>, terminals: seq<Pos>,
                     gamma: real, rows: nat, cols: nat)
  {
    predicate Ok() {
      Shaped(maze, rows, cols) && Shaped(rewards, rows, cols)
    }

    /** _is_valid_state: inside the grid and not WALL. */
    predicate ValidState(p: Pos)
      requires Ok()
    {
      InGrid(rows, cols, p) && maze[p.0][p.1] != WALL
    }

    /** The cells the sweeps skip: invalid or terminal. */
    predicate Frozen(p: Pos)
      requires Ok()
    {
      !ValidState(p) || p in terminals
    }

    /** _get_next_state: the shifted cell when it is a valid state, else p itself. */
    function Next(p: Pos, a: nat): (q: Pos)
      requires Ok() && a < 4
      ensures ValidState(Step(p, ACTIONS[a])) ==> q == Step(p, ACTIONS[a])
      ensures !ValidState(Step(p, ACTIONS[a])) ==> q == p
      ensures ValidState(p) ==> ValidState(q)
    {
      var t := Step(p, ACTIONS[a]);
      if ValidState(t) then t else p
    }

    /** The backup of action a at p: rewards[p] + gamma * v[next(p, a)]. */
    function QValue(v: seq<seq<real>>, p: Pos, a: nat): real
      requires Ok() && Shaped(v, rows, cols) && InGrid(rows, cols, p) && a < 4
    {
      var q := Next(p, a);
      rewards[p.0][p.1] + gamma * v[q.0][q.1]
    }

    /** action_values, in action order. */
    function QValues(v: seq<seq<real>>, p: Pos): (r: seq<real>)
      requires Ok() && Shaped(v, rows, cols) && InGrid(rows, cols, p)
      ensures |r| == 4 && forall a :: 0 <= a < 4 ==> r[a] == QValue(v, p, a)
    {
      [QValue(v, p, 0), QValue(v, p, 1), QValue(v, p, 2), QValue(v, p, 3)]
    }

    /** One value-iteration sweep at p, reading only the pre-sweep grid v. */
    function SweepCell(v: seq<seq<real>>, p: Pos): real
      requires Ok() && Shaped(v, rows, cols) && InGrid(rows, cols, p)
    {
      if Frozen(p) then v[p.0][p.1] else MaxOf(QValues(v, p))
    }

    /** A synchronous value-iteration sweep: every cell computed from v. */
    function Sweep(v: seq<seq<real>>): (w: seq<seq<real>>)
      requires Ok() && Shaped(v, rows, cols)
      ensures Shaped(w, rows, cols)
      ensures forall i, j {:trigger w[i][j]} :: 0 <= i < rows && 0 <= j < cols ==> w[i][j] == SweepCell(v, (i, j))
    {
      SweepRows(v, rows)
    }

    /** The first m rows of a sweep. */
    function SweepRows(v: seq<seq<real>>, m: nat): (w: seq<seq<real>>)
      requires Ok() && Shaped(v, rows, cols) && m <= rows
      ensures |w| == m && forall i :: 0 <= i < m ==> w[i] == SweepRow(v, i, cols)
    {
      if m == 0 then [] else SweepRows(v, m - 1) + [SweepRow(v, m - 1, cols)]
    }

    /** The first n cells of row i of a sweep. */
    function SweepRow(v: seq<seq<real>>, i: nat, n: nat): (r: seq<real>)
      requires Ok() && Shaped(v, rows, cols) && i < rows && n <= cols
      ensures |r| == n && forall j {:trigger r[j]} :: 0 <= j < n ==> r[j] == SweepCell(v, (i, j))
    {
      if n == 0 then [] else SweepRow(v, i, n - 1) + [SweepCell(v, (i, n - 1))]
    }

    /** n sweeps from v. */
    function Iterate(v: seq<seq<real>>, n: nat): (w: seq<seq<real>>)
      requires Ok() && Shaped(v, rows, cols)
      ensures Shaped(w, rows, cols)
    {
      if n == 0 then v else Sweep(Iterate(v, n - 1))
    }

    /** One policy-evaluation sweep at p under the policy grid pol. */
    function EvalCell(pol: seq<seq<int>>, v: seq<seq<real>>, p: Pos): real
      requires Ok() && ActionGrid(pol, rows, cols) && Shaped(v, rows, cols) && InGrid(rows, cols, p)
    {
      if Frozen(p) then v[p.0][p.1] else QValue(v, p, pol[p.0][p.1])
    }

    function EvalSweep(pol: seq<seq<int>>, v: seq<seq<real>>): (w: seq<seq<real>>)
      requires Ok() && ActionGrid(pol, rows, cols) && Shaped(v, rows, cols)
      ensures Shaped(w, rows, cols)
      ensures forall i, j {:trigger w[i][j]} :: 0 <= i < rows && 0 <= j < cols ==> w[i][j] == EvalCell(pol, v, (i, j))
    {
      EvalRows(pol, v, rows)
    }

    function EvalRows(pol: seq<seq<int>>, v: seq<seq<real>>, m: nat): (w: seq<seq<real>>)
      requires Ok() && ActionGrid(pol, rows, cols) && Shaped(v, rows, cols) && m <= rows
      ensures |w| == m && forall i :: 0 <= i < m ==> w[i] == EvalRow(pol, v, i, cols)
    {
      if m == 0 then [] else EvalRows(pol, v, m - 1) + [EvalRow(pol, v, m - 1, cols)]
    }

    function EvalRow(pol: seq<seq<int>>, v: seq<seq<real>>, i: nat, n: nat): (r: seq<real>)
      requires Ok() && ActionGrid(pol, rows, cols) && Shaped(v, rows, cols) && i < rows && n <= cols
      ensures |r| == n && forall j {:trigger r[j]} :: 0 <= j < n ==> r[j] == EvalCell(pol, v, (i, j))
    {
      if n == 0 then [] else EvalRow(pol, v, i, n - 1) + [EvalCell(pol, v, (i, n - 1))]
    }

    /** _policy_evaluation with k sweeps left: sweep, and stop after the first sweep
        whose max_delta is below theta. */
    function EvalRun(pol: seq<seq<int>>, v: seq<seq<real>>, theta: real, k: nat): (w: seq<seq<real>>)
      requires Ok() && ActionGrid(pol, rows, cols) && Shaped(v, rows, cols)
      ensures Shaped(w, rows, cols)
      decreases k
    {
      if k == 0 then v
      else
        var w := EvalSweep(pol, v);
        if Delta(v, w, cols, rows) < theta then w else EvalRun(pol, w, theta, k - 1)
    }

    /** The first action maximising the backup at p. */
    function Best(v: seq<seq<real>>, p: Pos): (a: nat)
      requires Ok() && Shaped(v, rows, cols) && InGrid(rows, cols, p)
      ensures a < 4
    {
      Argmax(QValues(v, p))
    }

    function ImproveCell(v: seq<seq<real>>, pol: seq<seq<int>>, p: Pos): (a: int)
      requires Ok() && Shaped(v, rows, cols) && ActionGrid(pol, rows, cols) && InGrid(rows, cols, p)
      ensures 0 <= a < 4
    {
      if Frozen(p) then pol[p.0][p.1] else Best(v, p)
    }

    /** The policy after _extract_policy or _policy_improvement: the first greedy
        action at every cell that is not frozen. */
    function Improve(v: seq<seq<real>>, pol: seq<seq<int>>): (r: seq<seq<int>>)
      requires Ok() && Shaped(v, rows, cols) && ActionGrid(pol, rows, cols)
      ensures ActionGrid(r, rows, cols)
      ensures forall i, j {:trigger r[i][j]} :: 0 <= i < rows && 0 <= j < cols ==> r[i][j] == ImproveCell(v, pol, (i, j))
    {
      ImproveRows(v, pol, rows)
    }

    function ImproveRows(v: seq<seq<real>>, pol: seq<seq<int>>, m: nat): (r: seq<seq<int>>)
      requires Ok() && Shaped(v, rows, cols) && ActionGrid(pol, rows, cols) && m <= rows
      ensures |r| == m && forall i :: 0 <= i < m ==> r[i] == ImproveRow(v, pol, i, cols)
    {
      if m == 0 then [] else ImproveRows(v, pol, m - 1) + [ImproveRow(v, pol, m - 1, cols)]
    }

    function ImproveRow(v: seq<seq<real>>, pol: seq<seq<int>>, i: nat, n: nat): (r: seq<int>)
      requires Ok() && Shaped(v, rows, cols) && ActionGrid(pol, rows, cols) && i < rows && n <= cols
      ensures |r| == n && forall j {:trigger r[j]} :: 0 <= j < n ==> r[j] == ImproveCell(v, pol, (i, j))
    {
      if n == 0 then [] else ImproveRow(v, pol, i, n - 1) + [ImproveCell(v, pol, (i, n - 1))]
    }

    /** Every cell that is not frozen holds the first action maximising its backup. */
    predicate Greedy(v: seq<seq<real>>, pol: seq<seq<int>>)
      requires Ok() && Shaped(v, rows, cols) && Shaped(pol, rows, cols)
    {
      forall i, j {:trigger pol[i][j]} :: 0 <= i < rows && 0 <= j < cols && !Frozen((i, j)) ==> pol[i][j] == Best(v, (i, j))
    }

    /** The seeded policy of policy_iteration: action at every cell that is not
        frozen, pol's action at the frozen cells. */
    function SeedCell(pol: seq<seq<int>>, action: int, p: Pos): int
      requires Ok() && ActionGrid(pol, rows, cols) && InGrid(rows, cols, p)
    {
      if Frozen(p) then pol[p.0][p.1] else action
    }

    function Seed(pol: seq<seq<int>>, action: int): (r: seq<seq<int>>)
      requires Ok() && ActionGrid(pol, rows, cols) && 0 <= action < 4
      ensures ActionGrid(r, rows, cols)
      ensures forall i, j {:trigger r[i][j]} :: 0 <= i < rows && 0 <= j < cols ==> r[i][j] == SeedCell(pol, action, (i, j))
    {
      SeedRows(pol, action, rows)
    }

    function SeedRows(pol: seq<seq<int>>, action: int, m: nat): (r: seq<seq<int>>)
      requires Ok() && ActionGrid(pol, rows, cols) && 0 <= action < 4 && m <= rows
      ensures |r| == m && forall i :: 0 <= i < m ==> r[i] == SeedRow(pol, action, i, cols)
    {
      if m == 0 then [] else SeedRows(pol, action, m - 1) + [SeedRow(pol, action, m - 1, cols)]
    }

    function SeedRow(pol: seq<seq<int>>, action: int, i: nat, n: nat): (r: seq<int>)
      requires Ok() && ActionGrid(pol, rows, cols) && 0 <= action < 4 && i < rows && n <= cols
      ensures |r| == n && forall j {:trigger r[j]} :: 0 <= j < n ==> r[j] == SeedCell(pol, action, (i, j))
    {
      if n == 0 then [] else SeedRow(pol, action, i, n - 1) + [SeedCell(pol, action, (i, n - 1))]
    }

    /** One round of policy_iteration: _policy_evaluation, then _policy_improvement
        over the evaluated values. */
    function PiRound(st: PiState): (r: PiState)
      requires Ok() && Shaped(st.values, rows, cols) && ActionGrid(st.policy, rows, cols)
      ensures Shaped(r.values, rows, cols) && ActionGrid(r.policy, rows, cols)
    {
      var w := EvalRun(st.policy, st.values, EVAL_THETA, EVAL_MAX_ITERATIONS);
      PiState(w, Improve(w, st.policy))
    }

    /** Whether the improvement of a round from st changes no action. */
    predicate PiStable(st: PiState)
      requires Ok() && Shaped(st.values, rows, cols) && ActionGrid(st.policy, rows, cols)
    {
      Greedy(EvalRun(st.policy, st.values, EVAL_THETA, EVAL_MAX_ITERATIONS), st.policy)
    }

    /** n rounds of policy iteration from st. */
    function PiIterate(st: PiState, n: nat): (r: PiState)
      requires Ok() && Shaped(st.values, rows, cols) && ActionGrid(st.policy, rows, cols)
      ensures Shaped(r.values, rows, cols) && ActionGrid(r.policy, rows, cols)
    {
      if n == 0 then st else PiRound(PiIterate(st, n - 1))
    }
  }

  // ---------------------------------------------------------------------------
  // Properties of the sweeps

  /** A sweep sets every cell that is not frozen to the largest of its four backups
      over the pre-sweep values, and keeps the frozen cells. */
  lemma SweepIsBellmanBackup(d: Mdp, v: seq<seq<real>>, p: Pos)
    requires d.Ok() && Shaped(v, d.rows, d.cols) && InGrid(d.rows, d.cols, p)
    ensures d.Frozen(p) ==> d.Sweep(v)[p.0][p.1] == v[p.0][p.1]
    ensures !d.Frozen(p) ==> forall a :: 0 <= a < 4 ==> d.QValue(v, p, a) <= d.Sweep(v)[p.0][p.1]
    ensures !d.Frozen(p) ==> exists a :: 0 <= a < 4 && d.QValue(v, p, a) == d.Sweep(v)[p.0][p.1]
  {
    if !d.Frozen(p) {
      var a :| 0 <= a < 4 && d.QValues(v, p)[a] == MaxOf(d.QValues(v, p));
      assert d.QValue(v, p, a) == d.Sweep(v)[p.0][p.1];
    }
  }

  /** Any number of value-iteration sweeps leaves WALL and terminal cells as they were. */
  lemma {:induction false} IterateKeepsFrozen(d: Mdp, v: seq<seq<real>>, n: nat)
    requires d.Ok() && Shaped(v, d.rows, d.cols)
    ensures forall i, j {:trigger d.Iterate(v, n)[i][j]} :: 0 <= i < d.rows && 0 <= j < d.cols && d.Frozen((i, j)) ==> d.Iterate(v, n)[i][j] == v[i][j]
  {
    if n > 0 {
      IterateKeepsFrozen(d, v, n - 1);
    }
  }

  /** Policy evaluation leaves WALL and terminal cells as they were. */
  lemma {:induction false} EvalRunKeepsFrozen(d: Mdp, pol: seq<seq<int>>, v: seq<seq<real>>, theta: real, k: nat)
    requires d.Ok() && ActionGrid(pol, d.rows, d.cols) && Shaped(v, d.rows, d.cols)
    ensures forall i, j {:trigger d.EvalRun(pol, v, theta, k)[i][j]} :: 0 <= i < d.rows && 0 <= j < d.cols && d.Frozen((i, j)) ==>
      d.EvalRun(pol, v, theta, k)[i][j] == v[i][j]
    decreases k
  {
    if k > 0 {
      var w := d.EvalSweep(pol, v);
      if Delta(v, w, d.cols, d.rows) >= theta {
        EvalRunKeepsFrozen(d, pol, w, theta, k - 1);
      }
    }
  }

  /** The backups read the reward of a cell only where the cell is not frozen:
      rewards of WALL and terminal cells change no sweep. */
  /** Two reward grids that agree on the cells that are not frozen. */
  predicate SameLiveRewards(d: Mdp, r: seq<seq<real>>)
    requires d.Ok()
  {
    Shaped(r, d.rows, d.cols)
    && forall i, j {:trigger r[i][j]} :: 0 <= i < d.rows && 0 <= j < d.cols && !d.Frozen((i, j)) ==> r[i][j] == d.rewards[i][j]
  }

  lemma LiveBackupsAgree(d: Mdp, r: seq<seq<real>>, v: seq<seq<real>>, p: Pos)
    requires d.Ok() && SameLiveRewards(d, r) && Shaped(v, d.rows, d.cols) && InGrid(d.rows, d.cols, p) && !d.Frozen(p)
    ensures d.(rewards := r).Ok() && d.(rewards := r).QValues(v, p) == d.QValues(v, p)
  {
    var e := d.(rewards := r);
    assert forall a :: 0 <= a < 4 ==> e.QValue(v, p, a) == d.QValue(v, p, a);
  }

  /** The backups read the reward of a cell only where the cell is not frozen: the
      rewards of WALL and terminal cells change no value-iteration sweep. */
  lemma FrozenRewardsUnreadBySweep(d: Mdp, r: seq<seq<real>>, v: seq<seq<real>>)
    requires d.Ok() && SameLiveRewards(d, r) && Shaped(v, d.rows, d.cols)
    ensures d.(rewards := r).Ok() && d.(rewards := r).Sweep(v) == d.Sweep(v)
  {
    var e := d.(rewards := r);
    var s, t := e.Sweep(v), d.Sweep(v);
    forall i | 0 <= i < d.rows ensures s[i] == t[i] {
      forall j | 0 <= j < d.cols ensures s[i][j] == t[i][j] {
        if !d.Frozen((i, j)) {
          LiveBackupsAgree(d, r, v, (i, j));
        }
      }
    }
  }

  /** ... nor any policy-evaluation sweep. */
  lemma FrozenRewardsUnreadByEval(d: Mdp, r: seq<seq<real>>, pol: seq<seq<int>>, v: seq<seq<real>>)
    requires d.Ok() && SameLiveRewards(d, r) && ActionGrid(pol, d.rows, d.cols) && Shaped(v, d.rows, d.cols)
    ensures d.(rewards := r).Ok() && d.(rewards := r).EvalSweep(pol, v) == d.EvalSweep(pol, v)
  {
    var e := d.(rewards := r);
    var s, t := e.EvalSweep(pol, v), d.EvalSweep(pol, v);
    forall i | 0 <= i < d.rows ensures s[i] == t[i] {
      forall j | 0 <= j < d.cols ensures s[i][j] == t[i][j] {
        if !d.Frozen((i, j)) {
          LiveBackupsAgree(d, r, v, (i, j));
        }
      }
    }
  }

  /** ... nor the extracted policy. */
  lemma FrozenRewardsUnreadByImprove(d: Mdp, r: seq<seq<real>>, pol: seq<seq<int>>, v: seq<seq<real>>)
    requires d.Ok() && SameLiveRewards(d, r) && ActionGrid(pol, d.rows, d.cols) && Shaped(v, d.rows, d.cols)
    ensures d.(rewards := r).Ok() && d.(rewards := r).Improve(v, pol) == d.Improve(v, pol)
  {
    var e := d.(rewards := r);
    var s, t := e.Improve(v, pol), d.Improve(v, pol);
    forall i | 0 <= i < d.rows ensures s[i] == t[i] {
      forall j | 0 <= j < d.cols ensures s[i][j] == t[i][j] {
        if !d.Frozen((i, j)) {
          LiveBackupsAgree(d, r, v, (i, j));
        }
      }
    }
  }

  /** Improvement yields a greedy policy, and leaves a policy unchanged exactly
      when it is already greedy: the stability test of policy iteration. */
  lemma ImproveFixedPoint(d: Mdp, v: seq<seq<real>>, pol: seq<seq<int>>)
    requires d.Ok() && Shaped(v, d.rows, d.cols) && ActionGrid(pol, d.rows, d.cols)
    ensures d.Greedy(v, d.Improve(v, pol))
    ensures d.Improve(v, pol) == pol <==> d.Greedy(v, pol)
  {
    var r := d.Improve(v, pol);
    if d.Greedy(v, pol) {
      forall i | 0 <= i < d.rows ensures r[i] == pol[i] {
        assert forall j :: 0 <= j < d.cols ==> r[i][j] == pol[i][j];
      }
    }
  }

  /** Every round of policy iteration ends with a policy greedy for its values,
      and keeps its policy exactly when the round is stable. */
  lemma PiRoundGreedy(d: Mdp, st: PiState)
    requires d.Ok() && Shaped(st.values, d.rows, d.cols) && ActionGrid(st.policy, d.rows, d.cols)
    ensures d.Greedy(d.PiRound(st).values, d.PiRound(st).policy)
    ensures d.PiStable(st) <==> d.PiRound(st).policy == st.policy
  {
    var w := d.EvalRun(st.policy, st.values, EVAL_THETA, EVAL_MAX_ITERATIONS);
    ImproveFixedPoint(d, w, st.policy);
  }

  /** A round of policy iteration leaves the values and actions of the WALL and
      terminal cells as they were. */
  lemma PiRoundSameFrozen(d: Mdp, st: PiState)
    requires d.Ok() && Shaped(st.values, d.rows, d.cols) && ActionGrid(st.policy, d.rows, d.cols)
    ensures SameFrozen(d, st.values, d.PiRound(st).values)
    ensures SameFrozenActions(d, st.policy, d.PiRound(st).policy)
  {
    EvalRunKeepsFrozen(d, st.policy, st.values, EVAL_THETA, EVAL_MAX_ITERATIONS);
  }

  /** The first n values f(0), ..., f(n - 1), in order. */
  function Trace(f: nat -> real, n: nat): (h: seq<real>)
    ensures |h| == n
  {
    if n == 0 then [] else Trace(f, n - 1) + [f(n - 1)]
  }

  lemma {:induction false} TraceAt(f: nat -> real, n: nat, k: nat)
    requires k < n
    ensures Trace(f, n)[k] == f(k)
  {
    if k < n - 1 {
      TraceAt(f, n - 1, k);
    }
  }

  /** The max_delta of sweep k + 1 from v0 (0 outside well-shaped grids). */
  function SweepDelta(d: Mdp, v0: seq<seq<real>>, k: nat): real {
    if d.Ok() && Shaped(v0, d.rows, d.cols) then
      var v := d.Iterate(v0, k);
      Delta(v, d.Sweep(v), d.cols, d.rows)
    else 0.0
  }

  function SweepDeltaOf(d: Mdp, v0: seq<seq<real>>): nat -> real {
    (k: nat) => SweepDelta(d, v0, k)
  }

  /** The max_delta of each of the first n value-iteration sweeps from v0. */
  function SweepDeltas(d: Mdp, v0: seq<seq<real>>, n: nat): (h: seq<real>)
    ensures |h| == n
  {
    Trace(SweepDeltaOf(d, v0), n)
  }

  /** Entry k of the deltas is the max_delta of the sweep from the values after k
      sweeps. */
  lemma SweepDeltasAt(d: Mdp, v0: seq<seq<real>>, n: nat, k: nat)
    requires d.Ok() && Shaped(v0, d.rows, d.cols) && k < n
    ensures SweepDeltas(d, v0, n)[k] == Delta(d.Iterate(v0, k), d.Sweep(d.Iterate(v0, k)), d.cols, d.rows)
  {
    TraceAt(SweepDeltaOf(d, v0), n, k);
  }

  /** One more sweep extends the trajectory and its deltas by one step. */
  lemma SweepStep(d: Mdp, v0: seq<seq<real>>, n: nat)
    requires d.Ok() && Shaped(v0, d.rows, d.cols)
    ensures d.Iterate(v0, n + 1) == d.Sweep(d.Iterate(v0, n))
    ensures SweepDeltas(d, v0, n + 1)
      == SweepDeltas(d, v0, n) + [Delta(d.Iterate(v0, n), d.Sweep(d.Iterate(v0, n)), d.cols, d.rows)]
  {
  }

  /** The facts the sweep loop of value_iteration ends with make up its outcome,
      and the sweeps kept the frozen cells. */
  lemma ViOutcomeIntro(d: Mdp, v0: seq<seq<real>>, w: seq<seq<real>>, maxIterations: int, theta: real,
                       n: nat, finalDelta: real, history: seq<real>)
    requires d.Ok() && Shaped(v0, d.rows, d.cols)
    requires 1 <= n <= maxIterations && w == d.Iterate(v0, n) && history == SweepDeltas(d, v0, n)
    requires forall k :: 0 <= k < n - 1 ==> history[k] >= theta
    requires finalDelta == history[n - 1] && (n < maxIterations ==> finalDelta < theta)
    ensures Shaped(w, d.rows, d.cols) && SameFrozen(d, v0, w)
    ensures ViOutcome(d, v0, w, maxIterations, theta, n, finalDelta, history)
  {
    IterateKeepsFrozen(d, v0, n);
  }

  /** The outcome of the sweeps of value_iteration from v0: n sweeps, at least one
      and at most maxIterations, reached w; history holds their max_delta, all
      but the last at least theta; fewer than maxIterations sweeps means the last
      max_delta fell below theta. */
  predicate ViOutcome(d: Mdp, v0: seq<seq<real>>, w: seq<seq<real>>, maxIterations: int, theta: real,
                      n: nat, finalDelta: real, history: seq<real>)
    requires d.Ok() && Shaped(v0, d.rows, d.cols)
  {
    1 <= n <= maxIterations && |history| == n
    && w == d.Iterate(v0, n)
    && history == SweepDeltas(d, v0, n)
    && (forall k :: 0 <= k < n - 1 ==> history[k] >= theta)
    && finalDelta == history[n - 1]
    && (n < maxIterations ==> finalDelta < theta)
  }

  /** Rounds of policy iteration keep the WALL and terminal cells of both grids. */
  lemma {:induction false} PiIterateSameFrozen(d: Mdp, st: PiState, n: nat)
    requires d.Ok() && Shaped(st.values, d.rows, d.cols) && ActionGrid(st.policy, d.rows, d.cols)
    ensures SameFrozen(d, st.values, d.PiIterate(st, n).values)
    ensures SameFrozenActions(d, st.policy, d.PiIterate(st, n).policy)
  {
    if n > 0 {
      PiIterateSameFrozen(d, st, n - 1);
      PiIterateStepSameFrozen(d, st, n);
      SameFrozenTransitive(d, st.values, d.PiIterate(st, n - 1).values, d.PiIterate(st, n).values);
      SameFrozenActionsTransitive(d, st.policy, d.PiIterate(st, n - 1).policy, d.PiIterate(st, n).policy);
    }
  }

  /** The last of n rounds keeps the WALL and terminal cells of the rounds before it. */
  lemma PiIterateStepSameFrozen(d: Mdp, st: PiState, n: nat)
    requires d.Ok() && Shaped(st.values, d.rows, d.cols) && ActionGrid(st.policy, d.rows, d.cols) && n > 0
    ensures SameFrozen(d, d.PiIterate(st, n - 1).values, d.PiIterate(st, n).values)
    ensures SameFrozenActions(d, d.PiIterate(st, n - 1).policy, d.PiIterate(st, n).policy)
  {
    PiRoundSameFrozen(d, d.PiIterate(st, n - 1));
  }

  lemma SameFrozenTransitive(d: Mdp, u: seq<seq<real>>, v: seq<seq<real>>, w: seq<seq<real>>)
    requires d.Ok() && Shaped(u, d.rows, d.cols) && Shaped(v, d.rows, d.cols) && Shaped(w, d.rows, d.cols)
    requires SameFrozen(d, u, v) && SameFrozen(d, v, w)
    ensures SameFrozen(d, u, w)
  {
  }

  lemma SameFrozenActionsTransitive(d: Mdp, p: seq<seq<int>>, q: seq<seq<int>>, r: seq<seq<int>>)
    requires d.Ok() && Shaped(p, d.rows, d.cols) && Shaped(q, d.rows, d.cols) && Shaped(r, d.rows, d.cols)
    requires SameFrozenActions(d, p, q) && SameFrozenActions(d, q, r)
    ensures SameFrozenActions(d, p, r)
  {
  }

  /** The outcome of the rounds of policy_iteration from start: n rounds, at least
      one and at most maxIterations, reached fin; history holds their stability
      flags, 1 for all but the last, whose flag is 0 exactly when the run
      converged; fewer than maxIterations rounds means it converged. */
  predicate PiOutcome(d: Mdp, start: PiState, fin: PiState, maxIterations: int, n: nat, converged: bool,
                      history: seq<real>)
    requires d.Ok() && Shaped(start.values, d.rows, d.cols) && ActionGrid(start.policy, d.rows, d.cols)
  {
    1 <= n <= maxIterations && |history| == n
    && fin == d.PiIterate(start, n)
    && history == PiFlags(d, start, n)
    && (forall k :: 0 <= k < n - 1 ==> history[k] == 1.0)
    && (converged <==> history[n - 1] == 0.0)
    && (n < maxIterations ==> converged)
  }

  /** The same step, with the flag recorded for a round whose stability is known. */
  lemma PiStepFlag(d: Mdp, st: PiState, n: nat, stable: bool)
    requires d.Ok() && Shaped(st.values, d.rows, d.cols) && ActionGrid(st.policy, d.rows, d.cols)
    requires stable <==> d.PiStable(d.PiIterate(st, n))
    ensures d.PiIterate(st, n + 1) == d.PiRound(d.PiIterate(st, n))
    ensures PiFlags(d, st, n + 1) == PiFlags(d, st, n) + [if stable then 0.0 else 1.0]
  {
    PiStep(d, st, n);
  }

  /** Every entry of h is 1. */
  predicate AllOnes(h: seq<real>) {
    if |h| == 0 then true else h[|h| - 1] == 1.0 && AllOnes(h[..|h| - 1])
  }

  lemma {:induction false} AllOnesAt(h: seq<real>, k: nat)
    requires AllOnes(h) && k < |h|
    ensures h[k] == 1.0
  {
    if k < |h| - 1 {
      AllOnesAt(h[..|h| - 1], k);
    }
  }

  lemma AllOnesSnoc(h: seq<real>, x: real)
    requires AllOnes(h)
    ensures AllOnes(h + [x]) <==> x == 1.0
    ensures (h + [x])[..|h|] == h && (h + [x])[|h|] == x
  {
    assert (h + [x])[..|h|] == h;
  }

  /** The facts the round loop of policy_iteration ends with make up its
      outcome; the rounds kept the frozen cells and end on a greedy policy. */
  lemma PiOutcomeIntro(d: Mdp, start: PiState, fin: PiState, maxIterations: int, n: nat, converged: bool,
                       history: seq<real>)
    requires d.Ok() && Shaped(start.values, d.rows, d.cols) && ActionGrid(start.policy, d.rows, d.cols)
    requires 1 <= n <= maxIterations && fin == d.PiIterate(start, n) && history == PiFlags(d, start, n)
    requires |history| == n && AllOnes(history[..n - 1])
    requires (converged <==> history[n - 1] == 0.0) && (n < maxIterations ==> converged)
    ensures Shaped(fin.values, d.rows, d.cols) && ActionGrid(fin.policy, d.rows, d.cols)
    ensures PiOutcome(d, start, fin, maxIterations, n, converged, history)
    ensures SameFrozen(d, start.values, fin.values) && SameFrozenActions(d, start.policy, fin.policy)
    ensures d.Greedy(fin.values, fin.policy)
  {
    forall k | 0 <= k < n - 1 ensures history[k] == 1.0 {
      AllOnesAt(history[..n - 1], k);
    }
    PiStep(d, start, n - 1);
    PiRoundGreedy(d, d.PiIterate(start, n - 1));
    PiIterateSameFrozen(d, start, n);
  }

  /** The stability flag policy_iteration records for a round from st: 0 when
      it changes no action, 1 otherwise. */
  function PiFlag(d: Mdp, st: PiState): real
    requires d.Ok() && Shaped(st.values, d.rows, d.cols) && ActionGrid(st.policy, d.rows, d.cols)
  {
    if d.PiStable(st) then 0.0 else 1.0
  }

  /** The flag of round k + 1 from st (0 outside well-shaped grids). */
  function RoundFlag(d: Mdp, st: PiState, k: nat): real {
    if d.Ok() && Shaped(st.values, d.rows, d.cols) && ActionGrid(st.policy, d.rows, d.cols)
    then PiFlag(d, d.PiIterate(st, k)) else 0.0
  }

  function RoundFlagOf(d: Mdp, st: PiState): nat -> real {
    (k: nat) => RoundFlag(d, st, k)
  }

  /** The flags of the first n rounds of policy iteration from st. */
  function PiFlags(d: Mdp, st: PiState, n: nat): (h: seq<real>)
    ensures |h| == n
  {
    Trace(RoundFlagOf(d, st), n)
  }

  /** Entry k of the flags is the flag of round k. */
  lemma PiFlagsAt(d: Mdp, st: PiState, n: nat, k: nat)
    requires d.Ok() && Shaped(st.values, d.rows, d.cols) && ActionGrid(st.policy, d.rows, d.cols) && k < n
    ensures PiFlags(d, st, n)[k] == PiFlag(d, d.PiIterate(st, k))
  {
    TraceAt(RoundFlagOf(d, st), n, k);
  }

  /** One more round extends the rounds and their flags by one step. */
  lemma PiStep(d: Mdp, st: PiState, n: nat)
    requires d.Ok() && Shaped(st.values, d.rows, d.cols) && ActionGrid(st.policy, d.rows, d.cols)
    ensures d.PiIterate(st, n + 1) == d.PiRound(d.PiIterate(st, n))
    ensures PiFlags(d, st, n + 1) == PiFlags(d, st, n) + [PiFlag(d, d.PiIterate(st, n))]
  {
  }

  /** Two grids agree on the cells before (i, j) in row-major order. */
  predicate AgreeBefore(p: seq<seq<int>>, q: seq<seq<int>>, rows: nat, cols: nat, i: int, j: int)
    requires Shaped(p, rows, cols) && Shaped(q, rows, cols)
  {
    forall a, b :: 0 <= a < rows && 0 <= b < cols && (a < i || (a == i && b < j)) ==> p[a][b] == q[a][b]
  }

  /** Agreement up to the end of row i is agreement on rows 0..i. */
  lemma AgreeBeforeNextRow(p: seq<seq<int>>, q: seq<seq<int>>, rows: nat, cols: nat, i: nat)
    requires Shaped(p, rows, cols) && Shaped(q, rows, cols)
    ensures AgreeBefore(p, q, rows, cols, i, cols) <==> AgreeBefore(p, q, rows, cols, i + 1, 0)
  {
  }

  /** Agreement on all rows is equality. */
  lemma AgreeBeforeAll(p: seq<seq<int>>, q: seq<seq<int>>, rows: nat, cols: nat)
    requires Shaped(p, rows, cols) && Shaped(q, rows, cols)
    ensures AgreeBefore(p, q, rows, cols, rows, 0) <==> p == q
  {
    if AgreeBefore(p, q, rows, cols, rows, 0) {
      forall a | 0 <= a < rows ensures p[a] == q[a] {
        assert forall b :: 0 <= b < cols ==> p[a][b] == q[a][b];
      }
    }
  }

  /** The cells of a rows x cols grid that keep holds. */
  function Kept(rows: nat, cols: nat, keep: Pos -> bool): set<Pos> {
    set p | p in AllCells(rows, cols) && keep(p)
  }

  /** The cells of g that are not WALL. */
  function OpenCells(g: seq<seq<int>>, rows: nat, cols: nat): set<Pos> {
    Kept(rows, cols, IsOpenIn(g))
  }

  /** The EXIT cells of g. */
  function ExitCells(g: seq<seq<int>>, rows: nat, cols: nat): set<Pos> {
    Kept(rows, cols, IsExitIn(g))
  }

  /** A row-major scan of the grid lists each cell it keeps once: its length is
      the number of cells kept, as in the terminal_states and valid_states counts
      of get_stats. */
  lemma ScanCount(rows: nat, cols: nat, keep: Pos -> bool)
    ensures |ScanRect(0, rows, 0, cols, keep)| == |Kept(rows, cols, keep)|
  {
    var s := ScanRect(0, rows, 0, cols, keep);
    ScanRectFacts(0, rows, 0, cols, keep);
    assert Distinct(s) by {
      forall a, b | 0 <= a < b < |s| ensures s[a] != s[b] {
        assert Before(s[a], s[b]);
      }
    }
    DistinctCard(s);
    assert (set x | x in s) == Kept(rows, cols, keep);
  }

  /** Two value grids agree on the WALL and terminal cells. */
  predicate SameFrozen(d: Mdp, v: seq<seq<real>>, w: seq<seq<real>>)
    requires d.Ok() && Shaped(v, d.rows, d.cols) && Shaped(w, d.rows, d.cols)
  {
    forall i, j {:trigger w[i][j]} :: 0 <= i < d.rows && 0 <= j < d.cols && d.Frozen((i, j)) ==> w[i][j] == v[i][j]
  }

  /** Two action grids agree on the WALL and terminal cells. */
  predicate SameFrozenActions(d: Mdp, p: seq<seq<int>>, q: seq<seq<int>>)
    requires d.Ok() && Shaped(p, d.rows, d.cols) && Shaped(q, d.rows, d.cols)
  {
    forall i, j {:trigger q[i][j]} :: 0 <= i < d.rows && 0 <= j < d.cols && d.Frozen((i, j)) ==> q[i][j] == p[i][j]
  }

  /** Seeding changes only cells that are not frozen. */
  lemma SeedKeepsFrozen(d: Mdp, pol: seq<seq<int>>, action: int)
    requires d.Ok() && ActionGrid(pol, d.rows, d.cols) && 0 <= action < 4
    ensures SameFrozenActions(d, pol, d.Seed(pol, action))
  {
  }

  datatype ViResult = ViResult(iterations: nat, converged: bool, finalDelta: real, convergenceHistory: seq<real>)
  datatype PiResult = PiResult(iterations: nat, converged: bool, convergenceHistory: seq<real>)
  datatype Stats = Stats(rows: nat, cols: nat, gamma: real, terminalStates: nat, validStates: nat)

  // ---------------------------------------------------------------------------
  // The solver

  class Solver {
    const maze: array2<int>
    const gamma: real
    const rows: nat
    const cols: nat
    var valueFunction: array2<real>
    var policy: array2<int>
    var terminalStates: seq<Pos>
    var rewards: array2<real>
    var convergenceHistory: seq<real>

    ghost predicate Valid()
      reads this`valueFunction, this`policy, this`rewards, this`terminalStates, maze, policy
    {
      maze.Length0 == rows && maze.Length1 == cols
      && rewards.Length0 == rows && rewards.Length1 == cols
      && valueFunction.Length0 == rows && valueFunction.Length1 == cols
      && policy.Length0 == rows && policy.Length1 == cols
      && rewards != valueFunction && maze != policy
      && terminalStates == Terminals(Rows(maze), rows, cols)
      && forall i, j :: 0 <= i < rows && 0 <= j < cols ==> 0 <= policy[i, j] < 4
    }

    /** The MDP the solver's maze, rewards and terminals define. */
    function Model(): Mdp
      reads this`rewards, this`terminalStates, maze, rewards
    {
      Mdp(Rows(maze), Rows(rewards), terminalStates, gamma, rows, cols)
    }

    /** The value of every terminal and WALL cell is 0. */
    ghost predicate FrozenZero()
      requires Valid()
      reads this, maze, rewards, policy, valueFunction
    {
      var d := Model();
      forall i, j :: 0 <= i < rows && 0 <= j < cols && d.Frozen((i, j)) ==> valueFunction[i, j] == 0.0
    }

    /** _find_terminal_states: the EXIT cells of m in row-major order. */
    static method FindTerminalStates(m: array2<int>) returns (terminals: seq<Pos>)
      ensures terminals == Terminals(Rows(m), m.Length0, m.Length1)
    {
      ghost var g := Rows(m);
      terminals := [];
      for i := 0 to m.Length0
        invariant terminals == ScanRect(0, i, 0, m.Length1, IsExitIn(g))
      {
        for j := 0 to m.Length1
          invariant terminals == ScanRect(0, i, 0, m.Length1, IsExitIn(g)) + ScanRow(i, 0, j, IsExitIn(g))
        {
          if m[i, j] == EXIT {
            terminals := terminals + [(i, j)];
          }
        }
      }
    }

    /** The reward grid of m: wall for WALL, goal for EXIT, step elsewhere. */
    static method FillRewards(m: array2<int>, step: real, goal: real, wall: real) returns (r: array2<real>)
      ensures fresh(r) && r.Length0 == m.Length0 && r.Length1 == m.Length1
      ensures Rows(r) == BaseRewards(Rows(m), step, goal, wall)
    {
      r := new real[m.Length0, m.Length1]((i, j) => step);
      for i := 0 to m.Length0
        invariant forall a, b :: 0 <= a < m.Length0 && 0 <= b < m.Length1 ==>
          r[a, b] == if a < i then RewardOf(m[a, b], step, goal, wall) else step
      {
        for j := 0 to m.Length1
          invariant forall a, b :: 0 <= a < m.Length0 && 0 <= b < m.Length1 ==>
            r[a, b] == if a < i || (a == i && b < j) then RewardOf(m[a, b], step, goal, wall) else step
        {
          if m[i, j] == WALL {
            r[i, j] := wall;
          } else if m[i, j] == EXIT {
            r[i, j] := goal;
          }
        }
      }
      RowsAre(r, BaseRewards(Rows(m), step, goal, wall));
    }

    /** A solver over a copy of m with zero values, policy 0 everywhere, the EXIT
        cells as terminals and the default rewards. */
    constructor (m: array2<int>, gamma: real)
      ensures Valid() && FrozenZero()
      ensures fresh(maze) && fresh(rewards) && fresh(valueFunction) && fresh(policy)
      ensures rows == m.Length0 && cols == m.Length1 && Rows(maze) == Rows(m) && this.gamma == gamma
      ensures Rows(rewards) == BaseRewards(Rows(maze), -0.04, 10.0, 0.0)
      ensures forall i, j :: 0 <= i < rows && 0 <= j < cols ==> valueFunction[i, j] == 0.0 && policy[i, j] == 0
      ensures convergenceHistory == []
    {
      var copy := CopyGrid(m);
      var terminals := FindTerminalStates(copy);
      var r := FillRewards(copy, -0.04, 10.0, 0.0);
      var values := ZeroValues(m.Length0, m.Length1);
      var actions := ZeroActions(m.Length0, m.Length1);
      maze := copy;
      this.gamma := gamma;
      rows, cols := m.Length0, m.Length1;
      valueFunction := values;
      policy := actions;
      terminalStates := terminals;
      rewards := r;
      convergenceHistory := [];
    }

    /** np.zeros((rows, cols)). */
    static method ZeroValues(rows: nat, cols: nat) returns (a: array2<real>)
      ensures fresh(a) && a.Length0 == rows && a.Length1 == cols
      ensures forall i, j :: 0 <= i < rows && 0 <= j < cols ==> a[i, j] == 0.0
    {
      a := new real[rows, cols]((i, j) => 0.0);
    }

    /** np.zeros((rows, cols), dtype=int): action 0 (up) everywhere. */
    static method ZeroActions(rows: nat, cols: nat) returns (a: array2<int>)
      ensures fresh(a) && a.Length0 == rows && a.Length1 == cols
      ensures forall i, j :: 0 <= i < rows && 0 <= j < cols ==> a[i, j] == 0
    {
      a := new int[rows, cols]((i, j) => 0);
    }

    /** maze.copy(): a fresh array with the cells of m. */
    static method CopyGrid<T(0)>(m: array2<T>) returns (c: array2<T>)
      ensures fresh(c) && c.Length0 == m.Length0 && c.Length1 == m.Length1 && Rows(c) == Rows(m)
    {
      c := new T[m.Length0, m.Length1];
      for i := 0 to m.Length0
        invariant forall a, b :: 0 <= a < i && 0 <= b < m.Length1 ==> c[a, b] == m[a, b]
      {
        for j := 0 to m.Length1
          invariant forall a, b :: 0 <= a < i && 0 <= b < m.Length1 ==> c[a, b] == m[a, b]
          invariant forall b :: 0 <= b < j ==> c[i, b] == m[i, b]
        {
          c[i, j] := m[i, j];
        }
      }
      RowsAre(c, Rows(m));
    }

    /** update_rewards: the reward rule with the given rewards, then the custom
        entries whose cell is inside the grid. */
    method UpdateRewards(stepReward: real, goalReward: real, wallReward: real, custom: map<Pos, real>)
      requires Valid()
      modifies this
      ensures Valid() && fresh(rewards)
      ensures Rows(rewards) == WithCustom(BaseRewards(Rows(maze), stepReward, goalReward, wallReward), custom)
      ensures valueFunction == old(valueFunction) && policy == old(policy)
      ensures terminalStates == old(terminalStates) && convergenceHistory == old(convergenceHistory)
    {
      var r := FillRewards(maze, stepReward, goalReward, wallReward);
      ApplyCustom(r, custom);
      rewards := r;
    }

    /** The custom-rewards loop of update_rewards: each entry whose cell is inside
        the grid overwrites that cell. */
    static method ApplyCustom(r: array2<real>, custom: map<Pos, real>)
      modifies r
      ensures Rows(r) == WithCustom(old(Rows(r)), custom)
    {
      ghost var base := Rows(r);
      var keys := custom.Keys;
      while keys != {}
        invariant keys <= custom.Keys
        invariant forall a, b :: 0 <= a < r.Length0 && 0 <= b < r.Length1 ==>
          r[a, b] == if (a, b) in custom && (a, b) !in keys then custom[(a, b)] else base[a][b]
        decreases keys
      {
        var k :| k in keys;
        if 0 <= k.0 < r.Length0 && 0 <= k.1 < r.Length1 {
          r[k.0, k.1] := custom[k];
        }
        keys := keys - {k};
      }
      RowsAre(r, WithCustom(base, custom));
    }

    /** The four backups at p of the MDP d over the grid values, in action order. */
    static method ActionValues(d: Mdp, values: seq<seq<real>>, p: Pos) returns (vals: seq<real>)
      requires d.Ok() && Shaped(values, d.rows, d.cols) && InGrid(d.rows, d.cols, p)
      ensures vals == d.QValues(values, p)
    {
      vals := [];
      for a := 0 to 4
        invariant |vals| == a
        invariant forall k :: 0 <= k < a ==> vals[k] == d.QValue(values, p, k)
      {
        var q := d.Next(p, a);
        vals := vals + [d.rewards[p.0][p.1] + d.gamma * values[q.0][q.1]];
      }
    }

    /** One sweep of value_iteration into a value array, reading a copy of the
        pre-sweep values; returns its max_delta. */
    static method ValueSweep(d: Mdp, values: array2<real>) returns (maxDelta: real)
      requires d.Ok() && values.Length0 == d.rows && values.Length1 == d.cols
      modifies values
      ensures Rows(values) == d.Sweep(old(Rows(values)))
      ensures maxDelta == Delta(old(Rows(values)), Rows(values), d.cols, d.rows)
    {
      var oldValues := Rows(values);
      ghost var w := d.Sweep(oldValues);
      maxDelta := ValueSweepRows(d, oldValues, w, values);
      RowsAre(values, w);
    }

    /** The rows of a value-iteration sweep of v into current, which holds v. */
    static method ValueSweepRows(d: Mdp, v: seq<seq<real>>, ghost w: seq<seq<real>>, current: array2<real>)
      returns (maxDelta: real)
      requires d.Ok() && Shaped(v, d.rows, d.cols) && Shaped(w, d.rows, d.cols)
      requires forall a, b {:trigger w[a][b]} :: 0 <= a < d.rows && 0 <= b < d.cols ==> w[a][b] == d.SweepCell(v, (a, b))
      requires current.Length0 == d.rows && current.Length1 == d.cols
      requires forall a, b :: 0 <= a < d.rows && 0 <= b < d.cols ==> current[a, b] == v[a][b]
      modifies current
      ensures forall a, b :: 0 <= a < d.rows && 0 <= b < d.cols ==> current[a, b] == w[a][b]
      ensures maxDelta == Delta(v, w, d.cols, d.rows)
    {
      maxDelta := 0.0;
      for i := 0 to d.rows
        invariant forall a, b :: 0 <= a < d.rows && 0 <= b < d.cols ==>
          current[a, b] == if a < i then w[a][b] else v[a][b]
        invariant maxDelta == Delta(v, w, d.cols, i)
      {
        maxDelta := ValueSweepRow(d, v, w, current, i, maxDelta);
      }
    }

    /** Row i of a value-iteration sweep into current, whose rows before i already
        hold the sweep w of v; returns the running max_delta. */
    static method ValueSweepRow(d: Mdp, v: seq<seq<real>>, ghost w: seq<seq<real>>, current: array2<real>,
                                i: nat, running: real)
      returns (maxDelta: real)
      requires d.Ok() && Shaped(v, d.rows, d.cols) && Shaped(w, d.rows, d.cols) && i < d.rows
      requires forall b :: 0 <= b < d.cols ==> w[i][b] == d.SweepCell(v, (i, b))
      requires current.Length0 == d.rows && current.Length1 == d.cols
      requires forall a, b :: 0 <= a < d.rows && 0 <= b < d.cols ==>
        current[a, b] == if a < i then w[a][b] else v[a][b]
      requires running == Delta(v, w, d.cols, i)
      modifies current
      ensures forall a, b :: 0 <= a < d.rows && 0 <= b < d.cols ==>
        current[a, b] == if a < i + 1 then w[a][b] else v[a][b]
      ensures maxDelta == Delta(v, w, d.cols, i + 1)
    {
      maxDelta := running;
      for j := 0 to d.cols
        invariant forall a, b :: 0 <= a < d.rows && 0 <= b < d.cols ==>
          current[a, b] == if a < i || (a == i && b < j) then w[a][b] else v[a][b]
        invariant maxDelta == MaxR(Delta(v, w, d.cols, i), RowDelta(v[i], w[i], j))
      {
        maxDelta := ValueSweepCell(d, v, w, current, i, j, maxDelta);
      }
    }

    /** Cell (i, j) of a value-iteration sweep: a cell that is not frozen takes the
        largest of its backups over the pre-sweep values v, and its change is folded
        into the running max_delta; a frozen cell is skipped. */
    static method ValueSweepCell(d: Mdp, v: seq<seq<real>>, ghost w: seq<seq<real>>, current: array2<real>,
                                 i: nat, j: nat, running: real)
      returns (maxDelta: real)
      requires d.Ok() && Shaped(v, d.rows, d.cols) && Shaped(w, d.rows, d.cols) && i < d.rows && j < d.cols
      requires w[i][j] == d.SweepCell(v, (i, j))
      requires current.Length0 == d.rows && current.Length1 == d.cols && current[i, j] == v[i][j]
      requires running == MaxR(Delta(v, w, d.cols, i), RowDelta(v[i], w[i], j))
      modifies current
      ensures current[i, j] == w[i][j]
      ensures forall a, b :: 0 <= a < d.rows && 0 <= b < d.cols && (a != i || b != j) ==> current[a, b] == old(current[a, b])
      ensures maxDelta == MaxR(Delta(v, w, d.cols, i), RowDelta(v[i], w[i], j + 1))
    {
      maxDelta := running;
      if !d.Frozen((i, j)) {
        var vals := ActionValues(d, v, (i, j));
        current[i, j] := MaxOf(vals);
        maxDelta := MaxR(maxDelta, AbsR(current[i, j] - v[i][j]));
      }
      RunningDelta(v, w, d.cols, i, j, running, w[i][j]);
    }

    /** One sweep of _policy_evaluation into a value array under the policy grid
        pol, reading a copy of the pre-sweep values; returns its max_delta. */
    static method EvaluationSweep(d: Mdp, pol: seq<seq<int>>, values: array2<real>) returns (maxDelta: real)
      requires d.Ok() && ActionGrid(pol, d.rows, d.cols)
      requires values.Length0 == d.rows && values.Length1 == d.cols
      modifies values
      ensures Rows(values) == d.EvalSweep(pol, old(Rows(values)))
      ensures maxDelta == Delta(old(Rows(values)), Rows(values), d.cols, d.rows)
    {
      var oldValues := Rows(values);
      ghost var w := d.EvalSweep(pol, oldValues);
      maxDelta := EvaluationSweepRows(d, pol, oldValues, w, values);
      RowsAre(values, w);
    }

    /** The rows of a policy-evaluation sweep of v into current, which holds v. */
    static method EvaluationSweepRows(d: Mdp, pol: seq<seq<int>>, v: seq<seq<real>>, ghost w: seq<seq<real>>,
                                      current: array2<real>)
      returns (maxDelta: real)
      requires d.Ok() && ActionGrid(pol, d.rows, d.cols) && Shaped(v, d.rows, d.cols) && Shaped(w, d.rows, d.cols)
      requires forall a, b {:trigger w[a][b]} :: 0 <= a < d.rows && 0 <= b < d.cols ==> w[a][b] == d.EvalCell(pol, v, (a, b))
      requires current.Length0 == d.rows && current.Length1 == d.cols
      requires forall a, b :: 0 <= a < d.rows && 0 <= b < d.cols ==> current[a, b] == v[a][b]
      modifies current
      ensures forall a, b :: 0 <= a < d.rows && 0 <= b < d.cols ==> current[a, b] == w[a][b]
      ensures maxDelta == Delta(v, w, d.cols, d.rows)
    {
      maxDelta := 0.0;
      for i := 0 to d.rows
        invariant forall a, b :: 0 <= a < d.rows && 0 <= b < d.cols ==>
          current[a, b] == if a < i then w[a][b] else v[a][b]
        invariant maxDelta == Delta(v, w, d.cols, i)
      {
        maxDelta := EvaluationSweepRow(d, pol, v, w, current, i, maxDelta);
      }
    }

    /** Row i of a policy-evaluation sweep into current, whose rows before i already
        hold the sweep w of v; returns the running max_delta. */
    static method EvaluationSweepRow(d: Mdp, pol: seq<seq<int>>, v: seq<seq<real>>, ghost w: seq<seq<real>>,
                                     current: array2<real>, i: nat, running: real)
      returns (maxDelta: real)
      requires d.Ok() && ActionGrid(pol, d.rows, d.cols) && Shaped(v, d.rows, d.cols) && Shaped(w, d.rows, d.cols)
      requires i < d.rows && forall b :: 0 <= b < d.cols ==> w[i][b] == d.EvalCell(pol, v, (i, b))
      requires current.Length0 == d.rows && current.Length1 == d.cols
      requires forall a, b :: 0 <= a < d.rows && 0 <= b < d.cols ==>
        current[a, b] == if a < i then w[a][b] else v[a][b]
      requires running == Delta(v, w, d.cols, i)
      modifies current
      ensures forall a, b :: 0 <= a < d.rows && 0 <= b < d.cols ==>
        current[a, b] == if a < i + 1 then w[a][b] else v[a][b]
      ensures maxDelta == Delta(v, w, d.cols, i + 1)
    {
      maxDelta := running;
      for j := 0 to d.cols
        invariant forall a, b :: 0 <= a < d.rows && 0 <= b < d.cols ==>
          current[a, b] == if a < i || (a == i && b < j) then w[a][b] else v[a][b]
        invariant maxDelta == MaxR(Delta(v, w, d.cols, i), RowDelta(v[i], w[i], j))
      {
        maxDelta := EvaluationSweepCell(d, pol, v, w, current, i, j, maxDelta);
      }
    }

    /** Cell (i, j) of a policy-evaluation sweep: a cell that is not frozen takes the
        backup of its policy action over the pre-sweep values v, and its change is
        folded into the running max_delta; a frozen cell is skipped. */
    static method EvaluationSweepCell(d: Mdp, pol: seq<seq<int>>, v: seq<seq<real>>, ghost w: seq<seq<real>>,
                                      current: array2<real>, i: nat, j: nat, running: real)
      returns (maxDelta: real)
      requires d.Ok() && ActionGrid(pol, d.rows, d.cols) && Shaped(v, d.rows, d.cols) && Shaped(w, d.rows, d.cols)
      requires i < d.rows && j < d.cols && w[i][j] == d.EvalCell(pol, v, (i, j))
      requires current.Length0 == d.rows && current.Length1 == d.cols && current[i, j] == v[i][j]
      requires running == MaxR(Delta(v, w, d.cols, i), RowDelta(v[i], w[i], j))
      modifies current
      ensures current[i, j] == w[i][j]
      ensures forall a, b :: 0 <= a < d.rows && 0 <= b < d.cols && (a != i || b != j) ==> current[a, b] == old(current[a, b])
      ensures maxDelta == MaxR(Delta(v, w, d.cols, i), RowDelta(v[i], w[i], j + 1))
    {
      maxDelta := running;
      if !d.Frozen((i, j)) {
        var action := pol[i][j];
        var q := d.Next((i, j), action);
        var x := d.rewards[i][j] + d.gamma * v[q.0][q.1];
        assert x == w[i][j] by {
          assert x == d.QValue(v, (i, j), action);
        }
        current[i, j] := x;
        maxDelta := MaxR(maxDelta, AbsR(x - v[i][j]));
      }
      RunningDelta(v, w, d.cols, i, j, running, w[i][j]);
    }

    /** _policy_evaluation: at most maxEvalIterations sweeps under the policy grid
        pol, stopping after the first sweep whose max_delta is below theta. */
    static method EvaluatePolicy(d: Mdp, pol: seq<seq<int>>, values: array2<real>, theta: real, maxEvalIterations: nat)
      requires d.Ok() && ActionGrid(pol, d.rows, d.cols)
      requires values.Length0 == d.rows && values.Length1 == d.cols
      modifies values
      ensures Rows(values) == d.EvalRun(pol, old(Rows(values)), theta, maxEvalIterations)
    {
      ghost var goal := d.EvalRun(pol, Rows(values), theta, maxEvalIterations);
      for k := 0 to maxEvalIterations
        invariant d.EvalRun(pol, Rows(values), theta, maxEvalIterations - k) == goal
      {
        ghost var before := Rows(values);
        var maxDelta := EvaluationSweep(d, pol, values);
        if maxDelta < theta {
          return;
        }
        assert d.EvalRun(pol, before, theta, maxEvalIterations - k)
          == d.EvalRun(pol, Rows(values), theta, maxEvalIterations - (k + 1));
      }
    }

    /** The policy-improvement sweep into the action array: every cell that is not
        frozen takes the first greedy action over the values v; returns whether no
        action changed. */
    static method ImprovePolicy(d: Mdp, v: seq<seq<real>>, actions: array2<int>) returns (stable: bool)
      requires d.Ok() && Shaped(v, d.rows, d.cols)
      requires actions.Length0 == d.rows && actions.Length1 == d.cols && ActionGrid(Rows(actions), d.rows, d.cols)
      modifies actions
      ensures Rows(actions) == d.Improve(v, old(Rows(actions)))
      ensures stable <==> d.Greedy(v, old(Rows(actions)))
    {
      ghost var pol := Rows(actions);
      ghost var r := d.Improve(v, pol);
      stable := ImprovePolicyRows(d, v, pol, r, actions);
      assert Rows(actions) == r by {
        RowsAre(actions, r);
      }
      assert stable <==> d.Greedy(v, pol) by {
        AgreeBeforeAll(pol, r, d.rows, d.cols);
        ImproveFixedPoint(d, v, pol);
      }
    }

    /** The policy-improvement sweep into current, which holds pol; afterwards it
        holds the improved policy r, and stable tells whether r is pol. */
    static method ImprovePolicyRows(d: Mdp, v: seq<seq<real>>, ghost pol: seq<seq<int>>, ghost r: seq<seq<int>>,
                                    current: array2<int>)
      returns (stable: bool)
      requires d.Ok() && Shaped(v, d.rows, d.cols) && ActionGrid(pol, d.rows, d.cols) && Shaped(r, d.rows, d.cols)
      requires forall a, b :: 0 <= a < d.rows && 0 <= b < d.cols ==> r[a][b] == d.ImproveCell(v, pol, (a, b))
      requires current.Length0 == d.rows && current.Length1 == d.cols
      requires forall a, b :: 0 <= a < d.rows && 0 <= b < d.cols ==> current[a, b] == pol[a][b]
      modifies current
      ensures forall a, b :: 0 <= a < d.rows && 0 <= b < d.cols ==> current[a, b] == r[a][b]
      ensures stable <==> AgreeBefore(pol, r, d.rows, d.cols, d.rows, 0)
    {
      stable := true;
      for i := 0 to d.rows
        invariant forall a, b :: 0 <= a < d.rows && 0 <= b < d.cols ==>
          current[a, b] == if a < i then r[a][b] else pol[a][b]
        invariant stable <==> AgreeBefore(pol, r, d.rows, d.cols, i, 0)
      {
        stable := ImprovePolicyRow(d, v, pol, r, current, i, stable);
      }
    }

    /** Row i of the policy-improvement sweep into current, whose rows before i
        already hold the improved policy r of pol; stable tells whether r and pol
        agree so far. */
    static method ImprovePolicyRow(d: Mdp, v: seq<seq<real>>, ghost pol: seq<seq<int>>, ghost r: seq<seq<int>>,
                                   current: array2<int>, i: nat, stableBefore: bool)
      returns (stable: bool)
      requires d.Ok() && Shaped(v, d.rows, d.cols) && ActionGrid(pol, d.rows, d.cols) && Shaped(r, d.rows, d.cols)
      requires i < d.rows && forall b :: 0 <= b < d.cols ==> r[i][b] == d.ImproveCell(v, pol, (i, b))
      requires current.Length0 == d.rows && current.Length1 == d.cols
      requires forall a, b :: 0 <= a < d.rows && 0 <= b < d.cols ==>
        current[a, b] == if a < i then r[a][b] else pol[a][b]
      requires stableBefore <==> AgreeBefore(pol, r, d.rows, d.cols, i, 0)
      modifies current
      ensures forall a, b :: 0 <= a < d.rows && 0 <= b < d.cols ==>
        current[a, b] == if a < i + 1 then r[a][b] else pol[a][b]
      ensures stable <==> AgreeBefore(pol, r, d.rows, d.cols, i + 1, 0)
    {
      stable := stableBefore;
      for j := 0 to d.cols
        invariant forall a, b :: 0 <= a < d.rows && 0 <= b < d.cols ==>
          current[a, b] == if a < i || (a == i && b < j) then r[a][b] else pol[a][b]
        invariant stable <==> AgreeBefore(pol, r, d.rows, d.cols, i, j)
      {
        stable := ImprovePolicyCell(d, v, pol, r, current, i, j, stable);
      }
      AgreeBeforeNextRow(pol, r, d.rows, d.cols, i);
    }

    /** Cell (i, j) of the policy-improvement sweep: a cell that is not frozen takes
        np.argmax of its backups, and stability is lost when its action changes. */
    static method ImprovePolicyCell(d: Mdp, v: seq<seq<real>>, ghost pol: seq<seq<int>>, ghost r: seq<seq<int>>,
                                    current: array2<int>, i: nat, j: nat, stableBefore: bool)
      returns (stable: bool)
      requires d.Ok() && Shaped(v, d.rows, d.cols) && ActionGrid(pol, d.rows, d.cols) && Shaped(r, d.rows, d.cols)
      requires i < d.rows && j < d.cols && r[i][j] == d.ImproveCell(v, pol, (i, j))
      requires current.Length0 == d.rows && current.Length1 == d.cols && current[i, j] == pol[i][j]
      requires stableBefore <==> AgreeBefore(pol, r, d.rows, d.cols, i, j)
      modifies current
      ensures current[i, j] == r[i][j]
      ensures forall a, b :: 0 <= a < d.rows && 0 <= b < d.cols && (a != i || b != j) ==> current[a, b] == old(current[a, b])
      ensures stable <==> AgreeBefore(pol, r, d.rows, d.cols, i, j + 1)
    {
      stable := stableBefore;
      if !d.Frozen((i, j)) {
        var oldAction := current[i, j];
        var vals := ActionValues(d, v, (i, j));
        current[i, j] := Argmax(vals);
        if oldAction != current[i, j] {
          stable := false;
        }
      }
    }

    /** _extract_policy: the policy-improvement sweep over the current values,
        without its stability flag. */
    method ExtractPolicy()
      requires Valid()
      modifies policy
      ensures Valid() && Rows(policy) == Model().Improve(Rows(valueFunction), old(Rows(policy)))
    {
      var d := Model();
      var v := Rows(valueFunction);
      var _ := ImprovePolicy(d, v, policy);
    }

    /** The policy seeding of policy_iteration: every cell that is not frozen takes
        the action drawn, and the frozen cells keep theirs. */
    method SeedPolicy(action: int)
      requires Valid() && 0 <= action < 4
      modifies policy
      ensures Valid() && Rows(policy) == Model().Seed(old(Rows(policy)), action)
    {
      var d := Model();
      ghost var pol := Rows(policy);
      for i := 0 to rows
        invariant forall a, b :: 0 <= a < rows && 0 <= b < cols ==>
          policy[a, b] == if a < i && !d.Frozen((a, b)) then action else old(policy[a, b])
      {
        for j := 0 to cols
          invariant forall a, b :: 0 <= a < rows && 0 <= b < cols ==>
            policy[a, b] == if (a < i || (a == i && b < j)) && !d.Frozen((a, b)) then action else old(policy[a, b])
        {
          if d.ValidState((i, j)) && (i, j) !in terminalStates {
            policy[i, j] := action;
          }
        }
      }
      RowsAre(policy, d.Seed(pol, action));
    }

    /** value_iteration: sweeps until one's max_delta is below theta or
        maxIterations sweeps are done, then _extract_policy. With no sweep at all
        the source fails reading its loop variable, after extracting the policy. */
    method ValueIteration(maxIterations: int, theta: real) returns (res: Result<ViResult>)
      requires Valid()
      modifies this`convergenceHistory, valueFunction, policy
      ensures Valid() && Model() == old(Model())
      ensures SameFrozen(Model(), old(Rows(valueFunction)), Rows(valueFunction))
      ensures Rows(policy) == Model().Improve(Rows(valueFunction), old(Rows(policy)))
      ensures res.Err? <==> maxIterations <= 0
      ensures res.Err? ==> (res.message == UNBOUND_ITERATION && convergenceHistory == []
        && Rows(valueFunction) == old(Rows(valueFunction)))
      ensures res.Ok? ==>
        var n := res.value.iterations;
        |convergenceHistory| == n && res.value.convergenceHistory == convergenceHistory
        && ViOutcome(Model(), old(Rows(valueFunction)), Rows(valueFunction), maxIterations, theta,
                     n, res.value.finalDelta, convergenceHistory)
        && (res.value.converged <==> res.value.finalDelta < theta)
    {
      var d := Model();
      ghost var v0 := Rows(valueFunction);
      convergenceHistory := [];
      if maxIterations <= 0 {
        ExtractPolicy();
        return Err(UNBOUND_ITERATION);
      }
      var n, maxDelta, history := SweepUntil(d, valueFunction, maxIterations, theta);
      convergenceHistory := history;
      ExtractPolicy();
      res := Ok(ViResult(n, maxDelta < theta, maxDelta, convergenceHistory));
    }

    /** The sweeps of value_iteration: at most maxIterations sweeps of values,
        stopping after the first whose max_delta is below theta; returns the
        number of sweeps, the last max_delta and the max_delta of each sweep. */
    static method SweepUntil(d: Mdp, values: array2<real>, maxIterations: int, theta: real)
      returns (n: nat, maxDelta: real, history: seq<real>)
      requires d.Ok() && values.Length0 == d.rows && values.Length1 == d.cols && maxIterations >= 1
      modifies values
      ensures |history| == n
      ensures ViOutcome(d, old(Rows(values)), Rows(values), maxIterations, theta, n, maxDelta, history)
      ensures SameFrozen(d, old(Rows(values)), Rows(values))
    {
      ghost var v0 := Rows(values);
      n := 0;
      maxDelta := 0.0;
      history := [];
      while n < maxIterations
        invariant 0 <= n <= maxIterations && |history| == n
        invariant Rows(values) == d.Iterate(v0, n)
        invariant history == SweepDeltas(d, v0, n)
        invariant forall k :: 0 <= k < n ==> history[k] >= theta
        invariant n > 0 ==> maxDelta == history[n - 1]
      {
        maxDelta := ValueSweep(d, values);
        SweepStep(d, v0, n);
        history := history + [maxDelta];
        n := n + 1;
        if maxDelta < theta {
          break;
        }
      }
      ViOutcomeIntro(d, v0, Rows(values), maxIterations, theta, n, maxDelta, history);
    }

    /** policy_iteration: seed the policy with the action drawn, then rounds of
        _policy_evaluation and _policy_improvement until a round changes no action
        or maxIterations rounds are done. With no round at all the source fails
        reading its loop variable, after seeding the policy. */
    method PolicyIteration(maxIterations: int, initialAction: int) returns (res: Result<PiResult>)
      requires Valid() && 0 <= initialAction < 4
      modifies this`convergenceHistory, valueFunction, policy
      ensures Valid() && Model() == old(Model())
      ensures SameFrozen(Model(), old(Rows(valueFunction)), Rows(valueFunction))
      ensures SameFrozenActions(Model(), old(Rows(policy)), Rows(policy))
      ensures res.Err? <==> maxIterations <= 0
      ensures res.Err? ==> (res.message == UNBOUND_ITERATION && convergenceHistory == []
        && Rows(valueFunction) == old(Rows(valueFunction))
        && Rows(policy) == Model().Seed(old(Rows(policy)), initialAction))
      ensures res.Ok? ==>
        res.value.convergenceHistory == convergenceHistory
        && PiOutcome(Model(), PiState(old(Rows(valueFunction)), Model().Seed(old(Rows(policy)), initialAction)),
                     PiState(Rows(valueFunction), Rows(policy)), maxIterations,
                     res.value.iterations, res.value.converged, convergenceHistory)
        && Model().Greedy(Rows(valueFunction), Rows(policy))
    {
      var d := Model();
      ghost var v0 := Rows(valueFunction);
      ghost var p0 := Rows(policy);
      convergenceHistory := [];
      SeedPolicy(initialAction);
      ghost var seeded := Rows(policy);
      assert Rows(valueFunction) == v0;
      SeedKeepsFrozen(d, p0, initialAction);
      if maxIterations <= 0 {
        return Err(UNBOUND_ITERATION);
      }
      var n, stable, history := PolicyRounds(d, valueFunction, policy, maxIterations);
      SameFrozenActionsTransitive(d, p0, seeded, Rows(policy));
      convergenceHistory := history;
      res := Ok(PiResult(n, stable, convergenceHistory));
    }

    /** The rounds of policy_iteration over values and actions: at most
        maxIterations rounds, stopping after the first that changes no action;
        returns the number of rounds, whether the last was stable and the
        stability flag of each round. */
    static method PolicyRounds(d: Mdp, values: array2<real>, actions: array2<int>, maxIterations: int)
      returns (n: nat, stable: bool, history: seq<real>)
      requires d.Ok() && values.Length0 == d.rows && values.Length1 == d.cols
      requires actions.Length0 == d.rows && actions.Length1 == d.cols && ActionGrid(Rows(actions), d.rows, d.cols)
      requires maxIterations >= 1
      modifies values, actions
      ensures PiOutcome(d, PiState(old(Rows(values)), old(Rows(actions))), PiState(Rows(values), Rows(actions)),
                        maxIterations, n, stable, history)
      ensures SameFrozen(d, old(Rows(values)), Rows(values))
      ensures SameFrozenActions(d, old(Rows(actions)), Rows(actions))
      ensures d.Greedy(Rows(values), Rows(actions))
    {
      ghost var start := PiState(Rows(values), Rows(actions));
      n, stable, history := RunRounds(d, values, actions, start, maxIterations);
      PiOutcomeIntro(d, start, PiState(Rows(values), Rows(actions)), maxIterations, n, stable, history);
    }

    /** The loop of policy_iteration, stated on the rounds from start. */
    static method RunRounds(d: Mdp, values: array2<real>, actions: array2<int>, ghost start: PiState, maxIterations: int)
      returns (n: nat, stable: bool, history: seq<real>)
      requires d.Ok() && values.Length0 == d.rows && values.Length1 == d.cols
      requires actions.Length0 == d.rows && actions.Length1 == d.cols
      requires Shaped(start.values, d.rows, d.cols) && ActionGrid(start.policy, d.rows, d.cols)
      requires Rows(values) == start.values && Rows(actions) == start.policy
      requires maxIterations >= 1
      modifies values, actions
      ensures 1 <= n <= maxIterations && |history| == n
      ensures Rows(values) == d.PiIterate(start, n).values && Rows(actions) == d.PiIterate(start, n).policy
      ensures history == PiFlags(d, start, n)
      ensures AllOnes(history[..n - 1]) && (stable <==> history[n - 1] == 0.0) && (n < maxIterations ==> stable)
    {
      n := 0;
      stable := false;
      history := [];
      while n < maxIterations && !stable
        invariant 0 <= n <= maxIterations && |history| == n
        invariant Rows(values) == d.PiIterate(start, n).values && Rows(actions) == d.PiIterate(start, n).policy
        invariant history == PiFlags(d, start, n)
        invariant !stable ==> AllOnes(history)
        invariant stable ==> n > 0 && AllOnes(history[..n - 1]) && history[n - 1] == 0.0
        decreases maxIterations - n
      {
        stable, history := PolicyStep(d, values, actions, start, n, history);
        n := n + 1;
      }
    }

    /** Round n + 1 of policy_iteration from start, stated on the rounds. */
    static method PolicyStep(d: Mdp, values: array2<real>, actions: array2<int>, ghost start: PiState, ghost n: nat,
                             history: seq<real>)
      returns (stable: bool, history': seq<real>)
      requires d.Ok() && Shaped(start.values, d.rows, d.cols) && ActionGrid(start.policy, d.rows, d.cols)
      requires values.Length0 == d.rows && values.Length1 == d.cols
      requires actions.Length0 == d.rows && actions.Length1 == d.cols
      requires Rows(values) == d.PiIterate(start, n).values && Rows(actions) == d.PiIterate(start, n).policy
      requires history == PiFlags(d, start, n) && AllOnes(history)
      modifies values, actions
      ensures Rows(values) == d.PiIterate(start, n + 1).values && Rows(actions) == d.PiIterate(start, n + 1).policy
      ensures history' == PiFlags(d, start, n + 1) && |history'| == |history| + 1
      ensures !stable ==> AllOnes(history')
      ensures stable ==> AllOnes(history'[..|history|]) && history'[|history|] == 0.0
    {
      stable := PolicyRound(d, values, actions);
      PiStepFlag(d, start, n, stable);
      AllOnesSnoc(history, if stable then 0.0 else 1.0);
      history' := history + [if stable then 0.0 else 1.0];
    }

    /** One round of policy_iteration over values and actions; returns whether
        the improvement changed no action. */
    static method PolicyRound(d: Mdp, values: array2<real>, actions: array2<int>) returns (stable: bool)
      requires d.Ok() && values.Length0 == d.rows && values.Length1 == d.cols
      requires actions.Length0 == d.rows && actions.Length1 == d.cols && ActionGrid(Rows(actions), d.rows, d.cols)
      modifies values, actions
      ensures PiState(Rows(values), Rows(actions)) == d.PiRound(PiState(old(Rows(values)), old(Rows(actions))))
      ensures stable <==> d.PiStable(PiState(old(Rows(values)), old(Rows(actions))))
    {
      EvaluatePolicy(d, Rows(actions), values, EVAL_THETA, EVAL_MAX_ITERATIONS);
      stable := ImprovePolicy(d, Rows(values), actions);
    }

    /** get_value_function: a copy of the values. */
    method GetValueFunction() returns (a: array2<real>)
      ensures fresh(a) && a.Length0 == valueFunction.Length0 && a.Length1 == valueFunction.Length1
      ensures Rows(a) == Rows(valueFunction)
    {
      a := CopyGrid(valueFunction);
    }

    /** get_policy: a copy of the policy. */
    method GetPolicy() returns (a: array2<int>)
      ensures fresh(a) && a.Length0 == policy.Length0 && a.Length1 == policy.Length1
      ensures Rows(a) == Rows(policy)
    {
      a := CopyGrid(policy);
    }

    /** get_policy_string: no action at a frozen cell (off the grid, WALL or
        terminal), else the name of the cell's action. */
    function GetPolicyString(row: int, col: int): (s: string)
      requires Valid()
      reads this, maze, rewards, policy
      ensures s == "" <==> Model().Frozen((row, col))
      ensures !Model().Frozen((row, col)) ==> s == DirectionName(ACTIONS[policy[row, col]])
    {
      if !Model().ValidState((row, col)) || (row, col) in terminalStates then ""
      else ACTION_NAMES[policy[row, col]]
    }

    /** reset: zero values, action 0 everywhere, no history. */
    method Reset()
      requires Valid()
      modifies this
      ensures Valid() && FrozenZero() && fresh(valueFunction) && fresh(policy)
      ensures forall i, j :: 0 <= i < rows && 0 <= j < cols ==> valueFunction[i, j] == 0.0 && policy[i, j] == 0
      ensures rewards == old(rewards) && terminalStates == old(terminalStates) && convergenceHistory == []
    {
      var values := ZeroValues(rows, cols);
      var actions := ZeroActions(rows, cols);
      valueFunction := values;
      policy := actions;
      convergenceHistory := [];
    }

    /** get_stats: the grid shape, gamma, the number of terminal cells and of cells
        that are not WALL. */
    function GetStats(): (s: Stats)
      requires Valid()
      reads this, maze, policy
      ensures s.rows == rows && s.cols == cols && s.gamma == gamma
      ensures s.terminalStates == |ExitCells(Rows(maze), rows, cols)|
      ensures s.validStates == |OpenCells(Rows(maze), rows, cols)|
    {
      ScanCount(rows, cols, IsExitIn(Rows(maze)));
      ScanCount(rows, cols, IsOpenIn(Rows(maze)));
      Stats(rows, cols, gamma, |terminalStates|, |ScanRect(0, rows, 0, cols, IsOpenIn(Rows(maze)))|)
    }
  }
}
