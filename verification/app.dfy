/** The game session and one turn of its event loop (src/app.rs). */
module GameApp {
  import opened Int16
  import opened Outcomes
  import opened Levels
  import opened InputListener
  import BoardEngine

  /** The session state; the start instant is left out of the model. */
  datatype App = App(
    board: BoardEngine.Board,
    score: I16,
    gameOver: bool,
    victory: bool,
    difficulty: Difficulty)

  function GetScore(a: App): I16 { a.score }

  function GetGameOver(a: App): bool { a.gameOver }

  /** The state left after a turn: keep looping, leave the loop, or a panic raised by
      the board's indexing. */
  datatype Next = Continue(app: App) | Exit(app: App) | Panicked(index: nat, len: nat)

  /** The flag toggle is only known to keep the cursor in bounds. */
  ghost predicate KeepsCursorInBounds(toggleFlag: BoardEngine.Board -> BoardEngine.Board)
  {
    forall b :: BoardEngine.CursorInBounds(b) ==> BoardEngine.CursorInBounds(toggleFlag(b))
  }

  /** Everything in the session except the board. */
  predicate SameSession(a: App, a': App)
  {
    && GetScore(a') == GetScore(a)
    && GetGameOver(a') == GetGameOver(a)
    && a'.victory == a.victory
    && a'.difficulty == a.difficulty
  }

  /** A fresh session on an empty board of the given size: no score, not over, not
      won, Easy. */
  function New(width: I16, height: I16): (a: App)
    ensures GetScore(a) == 0
    ensures !GetGameOver(a) && !a.victory
    ensures a.difficulty == Easy
    ensures a.board == BoardEngine.New(width, height)
    ensures BoardEngine.Inv(a.board)
  {
    App(BoardEngine.New(width, height), 0, false, false, Easy)
  }

  /** One turn of the loop in `App::run`: navigation and selection reach the board
      only while the game is not over, a flag always reaches it, Quit leaves the loop,
      and every other event is ignored. Only the board can change. */
  function Step(a: App, e: InputEvent, toggleFlag: BoardEngine.Board -> BoardEngine.Board): (n: Next)
    requires BoardEngine.CursorInBounds(a.board)
    ensures n.Exit? <==> e == Quit
    ensures n.Exit? ==> n.app == a
    ensures n.Panicked? ==> e == Select && !a.gameOver && a.board.selected >= |a.board.cells|
    ensures n.Continue? ==> SameSession(a, n.app)
    ensures e.Navigation? ==>
              n.Continue? &&
              n.app.board == (if a.gameOver then a.board else BoardEngine.ChangeActiveCell(a.board, e))
    ensures e == Select && a.gameOver ==> n == Continue(a)
    ensures e == Select && !a.gameOver && n.Continue? ==>
              BoardEngine.SelectActiveCell(a.board) == Ok(n.app.board)
    ensures e == Flag ==> n == Continue(a.(board := toggleFlag(a.board)))
    ensures (e.Tick? || e.GameDifficulty? || e.Input?) ==> n == Continue(a)
    ensures n.Continue? && e != Flag && BoardEngine.Inv(a.board) ==> BoardEngine.Inv(n.app.board)
    ensures n.Continue? && KeepsCursorInBounds(toggleFlag) ==> BoardEngine.CursorInBounds(n.app.board)
  {
    match e
    case Navigation(_) =>
      if !a.gameOver then Continue(a.(board := BoardEngine.ChangeActiveCell(a.board, e)))
      else Continue(a)
    case Select =>
      if !a.gameOver then
        match BoardEngine.SelectActiveCell(a.board)
        case Ok(b) => Continue(a.(board := b))
        case Panic(i, len) => Panicked(i, len)
      else Continue(a)
    case Flag => Continue(a.(board := toggleFlag(a.board)))
    case Quit => Exit(a)
    case _ => Continue(a)
  }

  /** The loop itself over a finite stream of events: it stops at the first Quit or
      panic, and the session apart from the board is what it was at the start. */
  function Run(a: App, events: seq<InputEvent>, toggleFlag: BoardEngine.Board -> BoardEngine.Board): (n: Next)
    requires BoardEngine.CursorInBounds(a.board)
    requires KeepsCursorInBounds(toggleFlag)
    ensures !n.Panicked? ==> SameSession(a, n.app)
    ensures n.Exit? ==> Quit in events
    decreases |events|
  {
    if events == [] then Continue(a)
    else
      match Step(a, events[0], toggleFlag)
      case Continue(a') => Run(a', events[1..], toggleFlag)
      case other => other
  }

  /** Events after a Quit are never consumed. */
  lemma {:induction false} RunStopsAtQuit(
    a: App, before: seq<InputEvent>, after: seq<InputEvent>,
    toggleFlag: BoardEngine.Board -> BoardEngine.Board)
    requires BoardEngine.CursorInBounds(a.board)
    requires KeepsCursorInBounds(toggleFlag)
    requires Run(a, before, toggleFlag).Continue?
    ensures Run(a, before + [Quit] + after, toggleFlag) == Exit(Run(a, before, toggleFlag).app)
    decreases |before|
  {
    if before == [] {
      assert before + [Quit] + after == [Quit] + after;
    } else {
      var a' := Step(a, before[0], toggleFlag).app;
      assert (before + [Quit] + after)[0] == before[0];
      assert (before + [Quit] + after)[1..] == before[1..] + [Quit] + after;
      RunStopsAtQuit(a', before[1..], after, toggleFlag);
    }
  }

  /** Once the game is over, only a flag can change the board: a stream without Flag
      leaves the whole session untouched. */
  lemma {:induction false} GameOverFreezesBoard(
    a: App, events: seq<InputEvent>, toggleFlag: BoardEngine.Board -> BoardEngine.Board)
    requires BoardEngine.CursorInBounds(a.board)
    requires KeepsCursorInBounds(toggleFlag)
    requires a.gameOver
    requires Flag !in events
    ensures Run(a, events, toggleFlag) == Continue(a) || Run(a, events, toggleFlag) == Exit(a)
    decreases |events|
  {
    if events != [] {
      assert events[0] in events;
      if events[0] != Quit {
        assert forall e :: e in events[1..] ==> e in events;
        GameOverFreezesBoard(a, events[1..], toggleFlag);
      }
    }
  }

  /** With a flag toggle that keeps the board invariant, the invariant (cursor in
      bounds, exactly one selected cell) holds after any stream of events. */
  lemma {:induction false} RunKeepsBoardInvariant(
    a: App, events: seq<InputEvent>, toggleFlag: BoardEngine.Board -> BoardEngine.Board)
    requires BoardEngine.Inv(a.board)
    requires KeepsCursorInBounds(toggleFlag)
    requires forall b :: BoardEngine.Inv(b) ==> BoardEngine.Inv(toggleFlag(b))
    ensures !Run(a, events, toggleFlag).Panicked? ==> BoardEngine.Inv(Run(a, events, toggleFlag).app.board)
    decreases |events|
  {
    if events != [] {
      var n := Step(a, events[0], toggleFlag);
      if n.Continue? {
        assert BoardEngine.Inv(n.app.board);
        RunKeepsBoardInvariant(n.app, events[1..], toggleFlag);
      }
    }
  }
}
