/** The game page: the game-state machine around one game engine (start,
    pause, resume, restart, a new maze), the key bindings that drive the
    engine, the score (1000 at the start, one point per move, a time bonus on
    winning) and the clock label. The clock is a parameter `now`; the
    engine's random draws are the parameters `idx` and `pick`. */
module MazeGamePage {
  import opened Outcomes
  import opened Cells
  import Text
  import MazeGame

  datatype GameState = Idle | Playing | Paused | Won | Lost

  const START_SCORE: int := 1000
  const BONUS_CAP: int := 500

  /** max(0, n) */
  function NonNegative(n: int): (r: nat)
    ensures r >= n && (r == 0 || r == n)
  {
    if n < 0 then 0 else n
  }

  /** Python's int() on a float: the integer part, rounded toward zero. */
  function Trunc(x: real): (r: int)
    ensures 0.0 <= x ==> r as real <= x < r as real + 1.0
    ensures x < 0.0 ==> r as real - 1.0 < x <= r as real
  {
    if x >= 0.0 then x.Floor else -((-x).Floor)
  }

  /** The bonus of _handle_game_won for a game of timeTaken seconds: 500 less a
      point per whole second, never negative. */
  function TimeBonus(timeTaken: real): (b: int)
    ensures 0 <= b
    ensures 0.0 <= timeTaken ==> b <= BONUS_CAP
    ensures 0.0 <= timeTaken ==> (b == 0 <==> timeTaken >= BONUS_CAP as real)
  {
    NonNegative(BONUS_CAP - Trunc(timeTaken))
  }

  /** A faster game never earns a smaller bonus. */
  lemma TimeBonusAntitone(t1: real, t2: real)
    requires 0.0 <= t1 <= t2
    ensures TimeBonus(t1) >= TimeBonus(t2)
  {
    assert Trunc(t1) <= Trunc(t2);
  }

  /** key_to_move: the arrow keys and w/s/a/d in either case, each to its
      engine key. */
  function KeyToMove(keysym: string): (r: Option<string>)
    ensures r.Some? <==> keysym in ["Up", "Down", "Left", "Right", "w", "s", "a", "d", "W", "S", "A", "D"]
    ensures r.Some? ==> MazeGame.DirectionOf(MazeGame.Key(r.value)).Some?
  {
    if keysym == "Up" || keysym == "w" || keysym == "W" then Some("w")
    else if keysym == "Down" || keysym == "s" || keysym == "S" then Some("s")
    else if keysym == "Left" || keysym == "a" || keysym == "A" then Some("a")
    else if keysym == "Right" || keysym == "d" || keysym == "D" then Some("d")
    else None
  }

  /** The Tk name of each arrow key. */
  function ArrowKey(d: Direction): string {
    match d
    case Up => "Up"
    case Down => "Down"
    case Left => "Left"
    case Right => "Right"
  }

  /** The upper-case letter of each direction key. */
  function UpperKey(d: Direction): string {
    match d
    case Up => "W"
    case Down => "S"
    case Left => "A"
    case Right => "D"
  }

  /** An arrow key and its letter in either case move the player the same way,
      the way the arrow points. */
  lemma KeysMoveAlike(d: Direction)
    ensures KeyToMove(ArrowKey(d)) == Some(MazeGame.KeyOf(d))
    ensures KeyToMove(MazeGame.KeyOf(d)) == Some(MazeGame.KeyOf(d))
    ensures KeyToMove(UpperKey(d)) == Some(MazeGame.KeyOf(d))
    ensures MazeGame.DirectionOf(MazeGame.Key(KeyToMove(ArrowKey(d)).value)) == Some(d)
  {
    match d
    case Up =>
    case Down =>
    case Left =>
    case Right =>
  }

  /** f"{n:02d}" for any integer: a minus sign and the digits when negative. */
  function Format02d(n: int): (s: string)
    ensures n >= 0 ==> s == Text.Pad2(n)
    ensures n < 0 ==> |s| >= 2 && s[0] == '-'
    ensures n < 0 ==> (forall i :: 1 <= i < |s| ==> '0' <= s[i] <= '9') && Text.DigitsValue(s[1..]) == -n
  {
    Text.NatToStringValue(if n < 0 then -n else 0);
    if n < 0 then "-" + Text.NatToString(-n) else Text.Pad2(n)
  }

  /** Python's seconds // 60 and seconds % 60 on a float, each through int():
      for a non-negative time the whole minutes and the whole seconds left. */
  function MinutesSeconds(seconds: real): (ms: (int, int))
    ensures 0 <= ms.1 < 60
    ensures 0.0 <= seconds ==> ms.0 == seconds.Floor / 60 && ms.1 == seconds.Floor % 60
    ensures seconds < 0.0 ==> ms.0 < 0
  {
    var minutes := (seconds / 60.0).Floor;
    FloorRemainder(seconds, minutes);
    (minutes, (seconds - 60.0 * minutes as real).Floor)
  }

  lemma FloorRemainder(seconds: real, minutes: int)
    requires minutes == (seconds / 60.0).Floor
    ensures 0 <= (seconds - 60.0 * minutes as real).Floor < 60
    ensures 0.0 <= seconds ==> minutes == seconds.Floor / 60 && (seconds - 60.0 * minutes as real).Floor == seconds.Floor % 60
    ensures seconds < 0.0 ==> minutes < 0
  {
    var rest := seconds - 60.0 * minutes as real;
    assert minutes as real <= seconds / 60.0 < minutes as real + 1.0;
    var secs := rest.Floor;
    assert seconds.Floor == 60 * minutes + secs by {
      assert (60 * minutes + secs) as real <= seconds < (60 * minutes + secs) as real + 1.0;
    }
  }

  /** _format_time: the two numbers zero-padded and joined by a colon. */
  function FormatTime(seconds: real): (r: string)
    ensures |r| >= 5
    ensures 0.0 <= seconds ==> r == Text.Pad2(seconds.Floor / 60) + ":" + Text.Pad2(seconds.Floor % 60)
    ensures seconds < 0.0 ==> r[0] == '-'
  {
    var ms := MinutesSeconds(seconds);
    Format02d(ms.0) + ":" + Format02d(ms.1)
  }

  predicate AllDigits(s: string) {
    forall i :: 0 <= i < |s| ==> '0' <= s[i] <= '9'
  }

  /** Reading a clock label "M…M:SS" back as a number of seconds. */
  function ReadClock(r: string): Option<int> {
    if |r| >= 4 && r[|r| - 3] == ':' && AllDigits(r[..|r| - 3]) && AllDigits(r[|r| - 2..])
    then Some(Text.DigitsValue(r[..|r| - 3]) * 60 + Text.DigitsValue(r[|r| - 2..]))
    else None
  }

  /** For a non-negative time the label reads back as the whole seconds. */
  lemma FormatTimeReadsBack(seconds: real)
    requires 0.0 <= seconds
    ensures ReadClock(FormatTime(seconds)) == Some(seconds.Floor)
  {
    var n := seconds.Floor;
    var minutes, secs := n / 60, n % 60;
    assert minutes * 60 + secs == n;
    assert FormatTime(seconds) == Text.Pad2(minutes) + ":" + Text.Pad2(secs);
    ClockLabel(minutes, secs);
  }

  lemma ClockLabel(minutes: nat, secs: nat)
    requires secs < 60
    ensures ReadClock(Text.Pad2(minutes) + ":" + Text.Pad2(secs)) == Some(minutes * 60 + secs)
  {
    var m, s := Text.Pad2(minutes), Text.Pad2(secs);
    assert AllDigits(m) && AllDigits(s) && |s| == 2;
    ReadClockJoined(m, s);
  }

  lemma ReadClockJoined(m: string, s: string)
    requires |m| >= 1 && |s| == 2 && AllDigits(m) && AllDigits(s)
    ensures ReadClock(m + ":" + s) == Some(Text.DigitsValue(m) * 60 + Text.DigitsValue(s))
  {
    var r := m + ":" + s;
    assert r[..|r| - 3] == m;
    assert r[|r| - 2..] == s;
  }

  /** The engine of _play_game: built on the maze, with the player placed at a
      drawn ROOM cell when there is one and then an exit drawn for it. */
  method StartEngine(m: MazeGame.Grid, idx: nat, pick: nat, now: real) returns (game: MazeGame.Game)
    requires Rectangular(m)
    ensures fresh(game) && game.Valid()
    ensures game.player.Some? <==> exists q: Pos :: HasCode(m, q, ROOM)
    ensures game.player.Some? ==> HasCode(m, game.player.value, ROOM)
  {
    game := new MazeGame.Game(Some(m));
    assert game.Board() == m && game.player.None?;
    var placed := game.GeneratePlayer(None, idx, now);
    assert placed ==> game.player.Some?;
    assert game.player.Some? <==> exists q: Pos :: HasCode(m, q, ROOM);
    ghost var player := game.player;
    var exitPlaced := game.GenerateExit(None, pick);
    assert game.player == player;
  }

  /** The page's game fields. */
  class Page {
    var gameState: GameState
    var maze: Option<MazeGame.Grid>
    var originalMaze: Option<MazeGame.Grid>
    var engine: MazeGame.Game?
    var startTime: Option<real>
    var movesCount: int
    var score: int
    /** None stands for the initial float('inf'). */
    var bestTime: Option<real>

    /** Grids are rectangular, an engine is consistent, the counters are not
        negative, and a game in play or paused has an engine and a start time. */
    ghost predicate Valid()
      reads this, engine
    {
      (maze.Some? ==> Rectangular(maze.value))
      && (originalMaze.Some? ==> Rectangular(originalMaze.value))
      && (engine != null ==> engine.Valid())
      && movesCount >= 0 && score >= 0
      && (gameState == Playing || gameState == Paused ==> engine != null && startTime.Some?)
    }

    constructor ()
      ensures Valid()
      ensures gameState == Idle && maze == None && originalMaze == None && engine == null
      ensures startTime == None && movesCount == 0 && score == 0 && bestTime == None
    {
      gameState := Idle;
      maze := None;
      originalMaze := None;
      engine := null;
      startTime := None;
      movesCount := 0;
      score := 0;
      bestTime := None;
    }

    /** _reset_statistics */
    method ResetStatistics()
      modifies this
      ensures startTime == None && movesCount == 0 && score == 0
      ensures gameState == old(gameState) && maze == old(maze) && originalMaze == old(originalMaze)
      ensures engine == old(engine) && bestTime == old(bestTime)
    {
      startTime := None;
      movesCount := 0;
      score := 0;
    }

    /** _play_game: nothing without a maze. From IDLE a new engine is built on
        the maze, places the player and the exit (each may fail, which the page
        ignores), the page shows the engine's grid, the clock starts at now with
        no moves and 1000 points, and the game is in play. From PAUSED the game
        resumes as it was. In any other state nothing changes. */
    method PlayGame(idx: nat, pick: nat, now: real)
      requires Valid()
      modifies this
      ensures Valid()
      ensures bestTime == old(bestTime)
      ensures old(maze).None? || (old(gameState) != Idle && old(gameState) != Paused) ==>
                gameState == old(gameState) && maze == old(maze) && originalMaze == old(originalMaze)
                && engine == old(engine) && startTime == old(startTime)
                && movesCount == old(movesCount) && score == old(score)
      ensures old(maze).Some? && old(gameState) == Paused ==>
                gameState == Playing && maze == old(maze) && originalMaze == old(originalMaze)
                && engine == old(engine) && startTime == old(startTime)
                && movesCount == old(movesCount) && score == old(score)
      ensures old(maze).Some? && old(gameState) == Idle ==>
                gameState == Playing && originalMaze == old(maze)
                && engine != null && fresh(engine) && maze == engine.maze
                && startTime == Some(now) && movesCount == 0 && score == START_SCORE
                && (engine.player.Some? <==> exists q: Pos :: HasCode(old(maze).value, q, ROOM))
                && (engine.player.Some? ==> HasCode(old(maze).value, engine.player.value, ROOM))
    {
      if maze.None? {
        return;
      }
      if gameState == Idle {
        originalMaze := maze;
        var game := StartEngine(maze.value, idx, pick, now);
        engine := game;
        maze := game.maze;
        startTime := Some(now);
        movesCount := 0;
        score := START_SCORE;
        gameState := Playing;
      } else if gameState == Paused {
        gameState := Playing;
      }
    }

    /** _pause_game: only a game in play is paused. */
    method PauseGame()
      requires Valid()
      modifies this
      ensures Valid()
      ensures gameState == (if old(gameState) == Playing then Paused else old(gameState))
      ensures maze == old(maze) && originalMaze == old(originalMaze) && engine == old(engine)
      ensures startTime == old(startTime) && movesCount == old(movesCount) && score == old(score)
      ensures bestTime == old(bestTime)
    {
      if gameState == Playing {
        gameState := Paused;
      }
    }

    /** _restart_game: with a saved starting maze, that maze is shown again, the
        state is IDLE and the statistics are reset; otherwise nothing changes. */
    method RestartGame()
      requires Valid()
      modifies this
      ensures Valid()
      ensures old(originalMaze).None? ==>
                gameState == old(gameState) && maze == old(maze)
                && startTime == old(startTime) && movesCount == old(movesCount) && score == old(score)
      ensures old(originalMaze).Some? ==>
                gameState == Idle && maze == old(originalMaze)
                && startTime == None && movesCount == 0 && score == 0
      ensures originalMaze == old(originalMaze) && engine == old(engine) && bestTime == old(bestTime)
    {
      if originalMaze.Some? {
        maze := originalMaze;
        gameState := Idle;
        ResetStatistics();
      }
    }

    /** set_maze: an empty maze counts as none; the maze and the starting maze
        are both set, the state is IDLE and the statistics are reset. */
    method SetMaze(m: MazeGame.Grid)
      requires Valid() && Rectangular(m)
      modifies this
      ensures Valid()
      ensures maze == (if |m| > 0 then Some(m) else None) && originalMaze == maze
      ensures gameState == Idle && startTime == None && movesCount == 0 && score == 0
      ensures engine == old(engine) && bestTime == old(bestTime)
    {
      maze := if |m| > 0 then Some(m) else None;
      originalMaze := maze;
      gameState := Idle;
      ResetStatistics();
    }

    /** _handle_game_won: the game is WON; with a start time (a zero start time
        is false in Python and counts as none) the time bonus is added and a
        faster time becomes the best time. */
    method HandleGameWon(now: real)
      requires Valid()
      modifies this
      ensures Valid()
      ensures gameState == Won
      ensures old(startTime).Some? && old(startTime).value != 0.0 ==>
                var taken := now - old(startTime).value;
                score == old(score) + TimeBonus(taken)
                && bestTime == (if old(bestTime).None? || taken < old(bestTime).value then Some(taken) else old(bestTime))
      ensures old(startTime).None? || old(startTime).value == 0.0 ==>
                score == old(score) && bestTime == old(bestTime)
      ensures maze == old(maze) && originalMaze == old(originalMaze) && engine == old(engine)
      ensures startTime == old(startTime) && movesCount == old(movesCount)
    {
      gameState := Won;
      if startTime.Some? && startTime.value != 0.0 {
        var timeTaken := now - startTime.value;
        score := score + TimeBonus(timeTaken);
        if bestTime.None? || timeTaken < bestTime.value {
          bestTime := Some(timeTaken);
        }
      }
    }

    /** _on_key_press: ignored unless a game is in play with an engine, and for
        keys that are not bound. A bound key asks the engine to move; a move
        that happens counts, costs a point (never below 0) and shows the
        engine's grid, and a move onto the exit wins the game. The result is
        whether the key was consumed. */
    method OnKeyPress(keysym: string, now: real) returns (consumed: bool)
      requires Valid()
      modifies this, engine
      ensures Valid()
      ensures consumed <==> old(gameState) == Playing && old(engine) != null && KeyToMove(keysym).Some?
      ensures score >= 0
      ensures engine == old(engine) && originalMaze == old(originalMaze) && startTime == old(startTime)
      ensures !consumed ==>
                gameState == old(gameState) && maze == old(maze) && movesCount == old(movesCount)
                && score == old(score) && bestTime == old(bestTime)
      ensures consumed ==>
                var moved := !old(engine.gameOver) && old(engine.IsValidMove(MazeGame.Key(KeyToMove(keysym).value)));
                (!moved ==> gameState == old(gameState) && maze == old(maze) && movesCount == old(movesCount)
                            && score == old(score) && bestTime == old(bestTime) && engine.Snapshot() == old(engine.Snapshot()))
                && (moved ==> movesCount == old(movesCount) + 1 && maze == engine.maze
                              && gameState == (if engine.gameWon then Won else Playing)
                              && (!engine.gameWon ==> score == NonNegative(old(score) - 1) && bestTime == old(bestTime))
                              && (engine.gameWon && (startTime.None? || startTime.value == 0.0) ==>
                                    score == NonNegative(old(score) - 1) && bestTime == old(bestTime))
                              && (engine.gameWon && startTime.Some? && startTime.value != 0.0 ==>
                                    var taken := now - startTime.value;
                                    score == NonNegative(old(score) - 1) + TimeBonus(taken)
                                    && bestTime == (if old(bestTime).None? || taken < old(bestTime).value
                                                    then Some(taken) else old(bestTime))))
    {
      if gameState != Playing || engine == null {
        return false;
      }
      var move := KeyToMove(keysym);
      if move.None? {
        return false;
      }
      var moved := engine.MovePlayer(MazeGame.Key(move.value), now);
      if moved {
        movesCount := movesCount + 1;
        score := NonNegative(score - 1);
        maze := engine.maze;
        if engine.gameWon {
          HandleGameWon(now);
        }
      }
      return true;
    }
  }
}
