/** The board and its cursor (src/board.rs): a flat, row-major vector of cells, the
    board's width and height, and the index of the cell under the cursor. */
module BoardEngine {
  import opened Int16
  import opened Outcomes
  import CellRecord
  import opened InputListener

  datatype Board = Board(cells: seq<CellRecord.Cell>, width: I16, height: I16, selected: nat)

  function GetBoardWidth(b: Board): I16 { b.width }

  function GetBoardHeight(b: Board): I16 { b.height }

  function GetCells(b: Board): seq<CellRecord.Cell> { b.cells }

  /** The cursor is in bounds, or still at its initial 0 (before any cell exists). */
  predicate CursorInBounds(b: Board)
  {
    b.selected < |b.cells| || b.selected == 0
  }

  /** The board's invariant: before the cells exist the cursor is at 0; afterwards the
      cursor is in bounds and the cell under it is the one and only selected cell. */
  ghost predicate Inv(b: Board)
  {
    if |b.cells| == 0 then b.selected == 0
    else
      && b.selected < |b.cells|
      && forall i :: 0 <= i < |b.cells| ==> (b.cells[i].isSelected <==> i == b.selected)
  }

  /** A board small enough that its length survives the `as i16` cast unchanged. */
  predicate Small(b: Board)
  {
    |b.cells| < 0x8000
  }

  /** An empty board with the given dimensions and the cursor at 0. */
  function New(width: I16, height: I16): (b: Board)
    ensures GetBoardWidth(b) == width && GetBoardHeight(b) == height
    ensures GetCells(b) == [] && b.selected == 0
    ensures Inv(b)
  {
    Board([], width, height, 0)
  }

  /** The number of iterations of `for _ in 0..n`. */
  function Iterations(n: I16): nat
  {
    if n < 0 then 0 else n
  }

  /** The cell `initiate_board` pushes. */
  function FreshCell(): CellRecord.Cell
  {
    CellRecord.New(16, 16)
  }

  /** Appends width * height fresh cells after the existing ones, row loop outside and
      column loop inside, then marks the cell under the cursor selected; that last
      step panics when the cursor is still past the end. */
  method InitiateBoard(b: Board, width: I16, height: I16) returns (r: Result<Board>)
    ensures r.Ok? <==> b.selected < |b.cells| + Iterations(width) * Iterations(height)
    ensures r.Panic? ==> r == Panic(b.selected, |b.cells| + Iterations(width) * Iterations(height))
    ensures r.Ok? ==>
              && r.value.width == b.width && r.value.height == b.height
              && r.value.selected == b.selected
              && |r.value.cells| == |b.cells| + Iterations(width) * Iterations(height)
    ensures r.Ok? ==> forall i :: 0 <= i < |r.value.cells| && i != b.selected ==>
              r.value.cells[i] == (if i < |b.cells| then b.cells[i] else FreshCell())
    ensures r.Ok? ==>
              (r.value.cells[b.selected] ==
               CellRecord.SetIsSelected(if b.selected < |b.cells| then b.cells[b.selected] else FreshCell(), true))
    ensures r.Ok? && Inv(b) ==> Inv(r.value)
  {
    var cells := b.cells;
    var i: int := 0;
    while i < width
      invariant 0 <= i <= Iterations(width)
      invariant |cells| == |b.cells| + i * Iterations(height)
      invariant cells[..|b.cells|] == b.cells
      invariant forall k :: |b.cells| <= k < |cells| ==> cells[k] == FreshCell()
    {
      var j: int := 0;
      while j < height
        invariant 0 <= j <= Iterations(height)
        invariant |cells| == |b.cells| + i * Iterations(height) + j
        invariant cells[..|b.cells|] == b.cells
        invariant forall k :: |b.cells| <= k < |cells| ==> cells[k] == FreshCell()
      {
        cells := cells + [FreshCell()];
        j := j + 1;
      }
      assert i * Iterations(height) + Iterations(height) == (i + 1) * Iterations(height);
      i := i + 1;
    }
    if b.selected < |cells| {
      var marked := CellRecord.SetIsSelected(cells[b.selected], true);
      assert b.selected < |b.cells| ==> cells[b.selected] == b.cells[b.selected];
      r := Ok(b.(cells := cells[b.selected := marked]));
      assert forall k :: 0 <= k < |b.cells| ==> cells[k] == b.cells[k];
    } else {
      r := Panic(b.selected, |cells|);
    }
  }

  /** The board after the cursor moved to `t`: the target is marked, the old cursor
      cell unmarked, every other cell left alone. */
  function MovedTo(b: Board, t: nat): Board
    requires t < |b.cells|
  {
    b.(cells := seq(|b.cells|, j requires 0 <= j < |b.cells| =>
                      if j == t then CellRecord.SetIsSelected(b.cells[j], true)
                      else if j == b.selected then CellRecord.SetIsSelected(b.cells[j], false)
                      else b.cells[j]),
       selected := t)
  }

  /** Moves the cursor to `index` if it lies in `[0, len as i16)`, and otherwise
      leaves the board as it is. */
  function SetActiveCell(b: Board, index: I16): (r: Board)
    requires CursorInBounds(b)
    ensures index < 0 || index >= Wrap(|b.cells|) ==> r == b
    ensures !(index < 0 || index >= Wrap(|b.cells|)) ==> index < |b.cells| && r == MovedTo(b, index)
  {
    if index < 0 || index >= Wrap(|b.cells|) then b
    else
      var cs := b.cells[b.selected := CellRecord.SetIsSelected(b.cells[b.selected], false)];
      var cs' := cs[index := CellRecord.SetIsSelected(cs[index], true)];
      assert cs' == MovedTo(b, index).cells;
      b.(cells := cs', selected := index)
  }

  /** The signed step a direction takes through the flat cell vector. */
  function Offset(d: Direction, width: I16): int
  {
    match d
    case Up => 0 - width as int
    case Down => width
    case Left => -1
    case Right => 1
  }

  /** The `i16` target index of a move, computed as the board does it: the cursor
      truncated to `i16`, then a wrapping `i16` sum or difference. */
  function Target(b: Board, d: Direction): I16
  {
    match d
    case Up => Wrap(Wrap(b.selected) - b.width)
    case Down => Wrap(Wrap(b.selected) + b.width)
    case Left => Wrap(Wrap(b.selected) - 1)
    case Right => Wrap(Wrap(b.selected) + 1)
  }

  /** On a board whose length fits in an `i16`, the wrapped target passes the bounds
      check exactly when the true flat index lies in `[0, len)`, and then they agree. */
  lemma WrappedTargetIsFlatIndex(sel: nat, offset: int, len: nat)
    requires sel < len < 0x8000
    requires -0x8000 <= offset <= 0x8000
    ensures (0 <= Wrap(sel + offset) < Wrap(len)) <==> (0 <= sel + offset < len)
    ensures 0 <= sel + offset < len ==> Wrap(sel + offset) == sel + offset
  {
    if sel + offset >= 0x8000 {
      assert Wrap(sel + offset) == sel + offset - 0x1_0000;
    }
  }

  /** `change_active_cell`: a navigation event moves the cursor one row (Up/Down) or
      one cell (Left/Right) through the flat vector, a move off either end of the
      vector is rejected, and any other event leaves the board unchanged. */
  function ChangeActiveCell(b: Board, e: InputEvent): (r: Board)
    requires CursorInBounds(b)
    ensures !e.Navigation? ==> r == b
    ensures r.width == b.width && r.height == b.height && |r.cells| == |b.cells|
    ensures CursorInBounds(r)
    ensures Inv(b) ==> Inv(r)
    ensures e.Navigation? && Small(b) ==>
              var t := b.selected + Offset(e.direction, b.width);
              if 0 <= t < |b.cells| then r == MovedTo(b, t) else r == b
  {
    match e
    case Navigation(d) =>
      var t := b.selected + Offset(d, b.width);
      assert Small(b) && |b.cells| > 0 ==>
          ((0 <= Wrap(t) < Wrap(|b.cells|)) <==> (0 <= t < |b.cells|))
          && (0 <= t < |b.cells| ==> Wrap(t) == t) by {
        if Small(b) && |b.cells| > 0 {
          WrappedTargetIsFlatIndex(b.selected, Offset(d, b.width), |b.cells|);
        }
      }
      SetActiveCell(b, Target(b, d))
    case _ => b
  }

  /** `select_active_cell`: opens the cell under the cursor and touches nothing else;
      it panics when the cursor is past the end (a board whose cells were never made). */
  function SelectActiveCell(b: Board): (r: Result<Board>)
    ensures r.Ok? <==> b.selected < |b.cells|
    ensures r.Panic? ==> r == Panic(b.selected, |b.cells|)
    ensures r.Ok? ==>
              && r.value.width == b.width && r.value.height == b.height
              && r.value.selected == b.selected
              && |r.value.cells| == |b.cells|
              && r.value.cells[b.selected] == CellRecord.Select(b.cells[b.selected])
              && forall i :: 0 <= i < |b.cells| && i != b.selected ==> r.value.cells[i] == b.cells[i]
    ensures r.Ok? && Inv(b) ==> Inv(r.value)
  {
    if b.selected < |b.cells| then
      Ok(b.(cells := b.cells[b.selected := CellRecord.Select(b.cells[b.selected])]))
    else
      Panic(b.selected, |b.cells|)
  }

  /** Moving the cursor somewhere and straight back restores the board exactly. */
  lemma MoveAndBack(b: Board, t: nat)
    requires Inv(b) && t < |b.cells|
    ensures MovedTo(MovedTo(b, t), b.selected) == b
  {
    var m := MovedTo(MovedTo(b, t), b.selected);
    assert |m.cells| == |b.cells|;
    forall j | 0 <= j < |b.cells|
      ensures m.cells[j] == b.cells[j]
    {
      assert b.cells[j].isSelected <==> j == b.selected;
    }
  }

  /** An accepted Right followed by Left brings the cursor, and every cell, back. */
  lemma RightThenLeftReturns(b: Board)
    requires Inv(b) && Small(b)
    requires b.selected + 1 < |b.cells|
    ensures ChangeActiveCell(b, Navigation(Right)).selected == b.selected + 1
    ensures ChangeActiveCell(ChangeActiveCell(b, Navigation(Right)), Navigation(Left)) == b
  {
    var m := ChangeActiveCell(b, Navigation(Right));
    assert m == MovedTo(b, b.selected + 1);
    MoveAndBack(b, b.selected + 1);
  }

  /** An accepted Down followed by Up brings the cursor, and every cell, back. */
  lemma DownThenUpReturns(b: Board)
    requires Inv(b) && Small(b)
    requires 0 <= b.selected + b.width < |b.cells|
    ensures ChangeActiveCell(b, Navigation(Down)).selected == b.selected + b.width
    ensures ChangeActiveCell(ChangeActiveCell(b, Navigation(Down)), Navigation(Up)) == b
  {
    var m := ChangeActiveCell(b, Navigation(Down));
    assert m == MovedTo(b, b.selected + b.width);
    MoveAndBack(b, b.selected + b.width);
  }

  /** Moves off the ends of the cell vector are rejected: Up from the top row, Down
      from the bottom row, Left from the first cell and Right from the last. */
  lemma EdgeMovesAreRejected(b: Board)
    requires CursorInBounds(b) && Small(b)
    ensures b.width > 0 && b.selected < b.width ==> ChangeActiveCell(b, Navigation(Up)) == b
    ensures b.selected + b.width >= |b.cells| ==> ChangeActiveCell(b, Navigation(Down)) == b
    ensures b.selected == 0 ==> ChangeActiveCell(b, Navigation(Left)) == b
    ensures b.selected + 1 >= |b.cells| ==> ChangeActiveCell(b, Navigation(Right)) == b
  {
  }

  /** One or more steps of a positive width cover at least one width. */
  lemma AtLeastOneStep(k: int, w: int)
    requires k >= 1 && w > 0
    ensures k * w >= w
  {
    assert k * w == (k - 1) * w + w;
    assert (k - 1) * w >= 0;
  }

  /** Euclidean division of a number written as `q * w + r` with `0 <= r < w`. */
  lemma DivModOfRowColumn(x: int, w: int, q: int, r: int)
    requires w > 0 && 0 <= r < w && x == q * w + r
    ensures x / w == q && x % w == r
  {
    var q0, r0 := x / w, x % w;
    assert x == q0 * w + r0;
    assert (q0 - q) * w == r - r0 by {
      assert (q0 - q) * w == q0 * w - q * w;
    }
    if q0 > q {
      AtLeastOneStep(q0 - q, w);
    } else if q0 < q {
      AtLeastOneStep(q - q0, w);
    }
  }

  /** The cell before the first column of a row is the last column of the row above. */
  lemma PredecessorOfFirstColumn(s: int, w: int)
    requires w > 0 && s > 0 && s % w == 0
    ensures (s - 1) % w == w - 1 && (s - 1) / w == s / w - 1
  {
    var q := s / w;
    assert s == q * w;
    assert s - 1 == (q - 1) * w + (w - 1);
    DivModOfRowColumn(s - 1, w, q - 1, w - 1);
  }

  /** The cell after the last column of a row is the first column of the row below. */
  lemma SuccessorOfLastColumn(s: int, w: int)
    requires w > 0 && s >= 0 && s % w == w - 1
    ensures (s + 1) % w == 0 && (s + 1) / w == s / w + 1
  {
    var q := s / w;
    assert s == q * w + (w - 1);
    assert s + 1 == (q + 1) * w + 0;
    DivModOfRowColumn(s + 1, w, q + 1, 0);
  }

  /** An accepted Left lands one cell earlier. */
  lemma LeftStepsBack(b: Board)
    requires CursorInBounds(b) && Small(b) && b.selected > 0
    ensures ChangeActiveCell(b, Navigation(Left)).selected == b.selected - 1
  {
    assert Offset(Left, b.width) == -1;
    assert ChangeActiveCell(b, Navigation(Left)) == MovedTo(b, b.selected - 1);
  }

  /** Left from the first column of any row but the first is accepted and lands on
      the last column of the row above: the bounds check knows nothing of rows. */
  lemma LeftWrapsToPreviousRow(b: Board)
    requires CursorInBounds(b) && Small(b)
    requires b.width > 0 && b.selected > 0 && b.selected % b.width == 0
    ensures ChangeActiveCell(b, Navigation(Left)).selected == b.selected - 1
    ensures (b.selected - 1) % b.width == b.width - 1
    ensures (b.selected - 1) / b.width == b.selected / b.width - 1
  {
    PredecessorOfFirstColumn(b.selected, b.width);
    LeftStepsBack(b);
  }

  /** Right from the last column of a row, unless at the very last cell, is accepted
      and lands on the first column of the row below. */
  lemma RightWrapsToNextRow(b: Board)
    requires CursorInBounds(b) && Small(b)
    requires b.width > 0 && b.selected % b.width == b.width - 1
    requires b.selected + 1 < |b.cells|
    ensures ChangeActiveCell(b, Navigation(Right)).selected == b.selected + 1
    ensures (b.selected + 1) % b.width == 0
    ensures (b.selected + 1) / b.width == b.selected / b.width + 1
  {
    assert Offset(Right, b.width) == 1;
    assert ChangeActiveCell(b, Navigation(Right)) == MovedTo(b, b.selected + 1);
    SuccessorOfLastColumn(b.selected, b.width);
  }

  /** A board of 32768 to 65535 cells has a negative `len as i16`, so its bounds
      check rejects every target and the cursor cannot move at all. */
  lemma OversizedBoardFreezesCursor(b: Board, e: InputEvent)
    requires CursorInBounds(b)
    requires 0x8000 <= |b.cells| < 0x1_0000
    ensures ChangeActiveCell(b, e) == b
  {
    assert Wrap(|b.cells|) < 0;
  }
}
