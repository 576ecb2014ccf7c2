/** One grid square of the board (src/cell.rs). */
module CellRecord {
  import opened Int16

  /** The values of Rust's `i32`. */
  type I32 = x: int | -0x8000_0000 <= x < 0x8000_0000

  /** The fields of `Cell`, plus `isSelected` (the cursor mark) and `isOpen`, which the
      board sets through `set_is_selected` and `select`; those two methods are called by
      the board but not defined in cell.rs, so both fields are the model's own. */
  datatype Cell = Cell(
    width: I16,
    height: I16,
    value: I32,
    isBomb: bool,
    hasFlag: bool,
    isSelected: bool,
    isOpen: bool)

  function IsBomb(c: Cell): bool { c.isBomb }

  function GetValue(c: Cell): I32 { c.value }

  function GetHasFlag(c: Cell): bool { c.hasFlag }

  /** A cell's own data: everything except the cursor mark and the open state. */
  predicate SameData(a: Cell, b: Cell)
  {
    && a.width == b.width
    && a.height == b.height
    && GetValue(a) == GetValue(b)
    && IsBomb(a) == IsBomb(b)
    && GetHasFlag(a) == GetHasFlag(b)
  }

  /** A fresh cell of the given size: value 0, no bomb, no flag, hidden, not selected. */
  function New(width: I16, height: I16): (c: Cell)
    ensures c.width == width && c.height == height
    ensures GetValue(c) == 0
    ensures !IsBomb(c)
    ensures !GetHasFlag(c)
    ensures !c.isSelected && !c.isOpen
  {
    Cell(width, height, 0, false, false, false, false)
  }

  /** Sets or clears the cursor mark and nothing else. */
  function SetIsSelected(c: Cell, selected: bool): (r: Cell)
    ensures r.isSelected == selected
    ensures r.isOpen == c.isOpen
    ensures SameData(r, c)
  {
    c.(isSelected := selected)
  }

  /** Opens the cell, keeping its data and its cursor mark. */
  function Select(c: Cell): (r: Cell)
    ensures r.isOpen
    ensures r.isSelected == c.isSelected
    ensures SameData(r, c)
  {
    c.(isOpen := true)
  }
}
