# minesweeper-tui: board cursor, cell record and input dispatch

A Dafny model of the game engine of a terminal Minesweeper prototype, written in Rust.
It covers three parts:

- the **board** (`src/board.rs`). This is a flat, row-major vector of cells with a width,
  a height and a cursor index. The model covers how the board is filled, how the cursor
  moves, and how the cell under the cursor is opened.
- the **cell** record (`src/cell.rs`).
- the **input path** (`src/input_listener.rs`, `src/app.rs`). The producer classifies raw
  key presses. The consumer decodes what arrives on the channel. Each turn of the game
  loop dispatches one decoded event.

Everything is immutable data and pure functions. The one exception is `InitiateBoard`,
which is a method whose nested loops mirror the source's nested `for`.

Modules, one per source file or shared concept:

| module | file | models |
|---|---|---|
| `Int16` | int16.dfy | Rust `i16` and the two's-complement truncation of `as i16` and of wrapping `i16` arithmetic |
| `Outcomes` | outcomes.dfy | `Result`, whose error is the index-out-of-bounds panic |
| `CellRecord` | cell.dfy | `Cell`, `Cell::new`, the getters |
| `Levels` | levels.dfy | `Difficulty` |
| `InputListener` | input_listener.dfy | `Direction`, `InputEvent`, `handle_input`, the key classification of `listen_for_key_input` |
| `BoardEngine` | board.dfy | `Board`, `new`, `initiate_board`, `change_active_cell`, `set_active_cell`, `select_active_cell`, getters |
| `GameApp` | app.dfy | `App`, `App::new`, the dispatch `match` of `App::run` as `Step`, the loop as `Run`, `get_score`, `get_game_over` |

Choices the code forces:

- **Integer width.** Indices are checked as `i16`. The cursor is cast with
  `selected_cell_index as i16` and the length with `cells.len() as i16`. The offset is
  then added or subtracted in `i16`. The model writes all of this out with `Int16.Wrap`,
  using release-build wrapping. `BoardEngine.WrappedTargetIsFlatIndex` shows that on a
  board of fewer than 32768 cells the wrapped check accepts exactly the flat indices in
  `[0, len)`. `BoardEngine.OversizedBoardFreezesCursor` shows that a board of 32768 to
  65535 cells gets a negative length after the cast, so it rejects every move.
- **Row wrap.** Left and Right are bounds-checked on the flat index only. So Left from
  column 0 goes to the last column of the row above, and Right from the last column goes
  to the first column of the row below. Both are proved.
- **Filling the board.** `initiate_board` appends cells and never clears the old ones.
  `for _ in 0..n` runs zero times when `n <= 0`, so it appends
  `max(width,0) * max(height,0)` copies of `Cell::new(16, 16)`. It then indexes
  `cells[selected_cell_index]`, which panics if no cell exists there. The model returns
  `Panic` in that case.
- **Files that disagree.** The files do not agree on several signatures, and the model
  follows `src/board.rs` and `src/cell.rs`:
  - `app.rs:42` calls `Board::new()` with no arguments, so `GameApp.New` takes the
    board's width and height.
  - `app.rs:81` passes `&mut game_over` to `select_active_cell`, but `board.rs:77` takes
    no argument. So a Select never changes `game_over` in the model.
  - `toggle_active_cell_flag` (`app.rs:84`) is defined nowhere. It is a `Board -> Board`
    parameter of `Step` and `Run`.
  - `Cell::set_is_selected` and `Cell::select` are called but not defined in `cell.rs`.
    The model gives `Cell` two extra fields, `isSelected` and `isOpen`, and treats
    `select` as opening the cell and keeping its flag. Keeping the flag is the model's
    own choice, since the source has no `select` to follow.
- **Cursor precondition.** `SetActiveCell`, `ChangeActiveCell` and `Step` require
  `CursorInBounds`: the cursor is below the length, or still at its initial 0. The source
  relies on this when it indexes `cells[selected_cell_index]` at `board.rs:72`. Every board
  that `New`, `InitiateBoard`, a move or a selection produces satisfies it.
- **Channel receive.** One receive on the channel is a `Receipt`: `Timeout`,
  `Disconnected` (both become `Tick`), or `Received(event)`.

## Model

| member | source | states |
|---|---|---|
| `CellRecord.New` | src/cell.rs:20-40 | a new cell reads back the given width and height, value 0, no bomb and no flag through its getters, and is neither selected nor open |
| `CellRecord.SetIsSelected` | src/board.rs:72-73 | setting the cursor mark changes only the mark; value, bomb, flag, size and open state are kept |
| `CellRecord.Select` | src/board.rs:78 | selecting a cell opens it and keeps its data and its cursor mark |
| `InputListener.DecodeKey` | src/input_listener.rs:47-57 | decoding equals looking the unmodified key code up in the table d/a/w/s → Right/Left/Up/Down, e/m/h → Easy/Medium/Hard, Enter → Select; a key with any modifier, or an unbound key, is passed through unchanged; a decoded key never yields Flag, Quit or Tick |
| `InputListener.BindingsAreOneToOne` | src/input_listener.rs:48-55 | no two bound keys decode to the same event |
| `InputListener.DecodedEventNamesItsKey` | src/input_listener.rs:48-56 | a decoded event came from an unmodified key whose code the table binds to that event |
| `InputListener.HandleInput` | src/input_listener.rs:40-61 | timeout or error gives Tick; a received raw key is decoded by the key table; Flag and Quit come out exactly when Flag and Quit went in; navigation, difficulty and Select come only from a raw key; an already-decoded Navigation, GameDifficulty, Select or Tick becomes Tick; a passthrough is the received event itself |
| `InputListener.ClassifyKey` | src/input_listener.rs:76-84 | the producer sends Quit exactly for unmodified `q`, Flag exactly for unmodified `f`, and the raw key otherwise |
| `InputListener.KeyPressPipeline` | src/input_listener.rs:40-84 | producer then consumer: `q` gives Quit, `f` gives Flag, any other key is decoded by the table, and no key press ever reads as Tick |
| `InputListener.ProducerKeysAreUnbound` | src/input_listener.rs:47-84 | `q` and `f` are not in the decoder's table, so the decoder alone would pass them through |
| `Int16.Wrap` | src/board.rs:52-68 | the `i16` truncation agrees with the input modulo 2^16, is the identity on `i16` values, and never exceeds a non-negative input |
| `BoardEngine.New` | src/board.rs:18-47 | a new board has no cells, cursor 0, and the given width and height read back through the getters; it satisfies the board invariant |
| `BoardEngine.InitiateBoard` | src/board.rs:27-35 | exactly `max(w,0)*max(h,0)` fresh cells are appended after the existing cells, which are kept; the cursor cell is then selected; it panics exactly when the cursor is past the new end; the invariant "cursor in bounds, exactly one selected cell" is established or kept |
| `BoardEngine.SetActiveCell` | src/board.rs:67-75 | a target outside `[0, len as i16)` leaves the board unchanged; an accepted target is in bounds and yields the board with the old cursor cell unmarked, the target marked, the cursor at the target and every other cell unchanged |
| `BoardEngine.WrappedTargetIsFlatIndex` | src/board.rs:52-68 | on a board of fewer than 32768 cells, the wrapped `i16` target passes the bounds check exactly when the true flat index is in `[0, len)`, and then the two are equal |
| `BoardEngine.ChangeActiveCell` | src/board.rs:49-65 | a non-navigation event is a no-op; Up/Down/Left/Right target `cursor − width`, `cursor + width`, `cursor − 1`, `cursor + 1`; an out-of-range target leaves the board unchanged and an in-range one moves the cursor there; size and dimensions never change; the cursor stays in bounds and "exactly one selected cell" is preserved |
| `BoardEngine.SelectActiveCell` | src/board.rs:77-79 | opens the cell under the cursor and changes no other cell, the cursor or the dimensions; it panics exactly when the cursor is past the end; the invariant is preserved |
| `BoardEngine.MoveAndBack` | src/board.rs:72-74 | moving the cursor to any cell and back to where it was restores the whole board |
| `BoardEngine.RightThenLeftReturns` | src/board.rs:57-62 | an accepted Right followed by Left returns the cursor and every cell to where they were |
| `BoardEngine.DownThenUpReturns` | src/board.rs:51-56 | an accepted Down followed by Up returns the cursor and every cell to where they were |
| `BoardEngine.EdgeMovesAreRejected` | src/board.rs:51-70 | Up from the top row, Down from the bottom row, Left from cell 0 and Right from the last cell leave the board unchanged |
| `BoardEngine.LeftStepsBack` | src/board.rs:57-59 | Left from any cell but the first moves the cursor one cell back |
| `BoardEngine.LeftWrapsToPreviousRow` | src/board.rs:57-68 | Left from column 0 of a row other than the first is accepted and lands on the last column of the row above |
| `BoardEngine.RightWrapsToNextRow` | src/board.rs:60-68 | Right from the last column of a row, when not at the last cell, is accepted and lands on column 0 of the row below |
| `BoardEngine.OversizedBoardFreezesCursor` | src/board.rs:68 | on a board of 32768 to 65535 cells, `len as i16` is negative and every event leaves the board unchanged |
| `GameApp.New` | src/app.rs:40-49 | a new session has score 0, is not over and not won, is on Easy, and holds an empty board that satisfies the invariant |
| `GameApp.Step` | src/app.rs:73-87 | Navigation reaches the board only when the game is not over; Select opens the cursor cell only when the game is not over, and panics only then and only past the end; Flag always applies the flag toggle; Quit ends the loop with the state unchanged; Tick, GameDifficulty and Input change nothing; score, game-over, victory and difficulty never change; every event except Flag keeps the board invariant; after Flag the cursor stays in bounds when the toggle keeps it there |
| `GameApp.Run` | src/app.rs:65-88 | over any stream of events, the loop leaves score, game-over, victory and difficulty as they were, and it exits only if a Quit was received |
| `GameApp.RunStopsAtQuit` | src/app.rs:85 | events after a Quit are never consumed; the loop exits with the state reached just before it |
| `GameApp.GameOverFreezesBoard` | src/app.rs:74-84 | once the game is over, a stream without Flag leaves the whole session untouched |
| `GameApp.RunKeepsBoardInvariant` | src/app.rs:65-88 | if the flag toggle keeps the board invariant, then the cursor stays in bounds and exactly one cell stays selected after any stream of events |

## Left out

- `GameApp.RunKeepsBoardInvariant`: assumes the flag toggle keeps the board invariant, and `Run` assumes it keeps the cursor in bounds. `toggle_active_cell_flag` is defined nowhere, so nothing more is known about it.
- `BoardEngine.ChangeActiveCell`: states the flat-index meaning of a move only for boards of fewer than 32768 cells. Beyond that it states only the bounds, size and invariant facts, plus `OversizedBoardFreezesCursor` for 32768 to 65535 cells.
- Overflow panics of `i16` arithmetic in a debug build are not modelled. The model uses release-build wrapping.
- `App::initiate_game` (src/app.rs:99-102) passes a `Difficulty` to `initiate_board`, which takes a width and a height. No mapping from difficulty to dimensions exists, so that call is modelled only through `BoardEngine.InitiateBoard`.
- The start instant, `Instant`/`Duration` elapsed time (src/app.rs:66, 101), and terminal enter/leave and drawing inside `App::run` (src/app.rs:53-59, 67-71, 90-96) are left out. They are clock and terminal I/O.
- The mpsc channel, `recv_timeout` and the polling loop with its tick-rate bookkeeping (src/input_listener.rs:66-74, 88-90) are left out. They are concurrency and timing. A receive is the `Receipt` parameter of `HandleInput`.
- `KeyEvent`'s `state` field and the crossterm key codes other than characters and Enter are collapsed into `OtherKey`. The decoder never looks at them.
- The getters `is_bomb`, `get_value`, `get_has_flag`, `get_board_width`, `get_board_height`, `get_cells`, `get_score` and `get_game_over` are field reads of immutable values, so they cannot modify anything. They appear in the contracts of `New`, `SameData` and `SameSession`.
- src/ui.rs (terminal rendering through the `tui` crate), src/scoreboard.rs (home-directory lookup with empty method bodies), src/main.rs (raw-mode setup, argument parsing, thread spawn) and src/block.rs (an unused duplicate of `Cell` that is not a module of the crate) are not part of this model.
- Mine placement, adjacency counts, flag counting, victory detection and difficulty dimensions are not modelled, because the code does not implement them.
