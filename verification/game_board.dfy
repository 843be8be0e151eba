/** The 3x3 board, stored row-major as nine cells: index 0 is the top-left
    cell, index 8 the bottom-right one. */
module GameBoard {

  /** The two marks a player can put on the board. */
  datatype Symbol = X | O

  /** A cell is empty (the empty string in the game) or holds one mark. */
  datatype Cell = Empty | Mark(symbol: Symbol)

  /** A position on the board. */
  type Index = i: int | 0 <= i < 9

  /** A board always has exactly nine cells. */
  type Board = b: seq<Cell> | |b| == 9
    witness [Empty, Empty, Empty, Empty, Empty, Empty, Empty, Empty, Empty]

  const EmptyBoard: Board := [Empty, Empty, Empty, Empty, Empty, Empty, Empty, Empty, Empty]

  /** Number of empty cells. */
  function CountEmpty(cells: seq<Cell>): (n: nat)
    ensures n <= |cells|
  {
    if |cells| == 0 then 0
    else (if cells[0] == Empty then 1 else 0) + CountEmpty(cells[1..])
  }

  /** Writes a mark. A negative index leaves the nine cells as they are: the
      array then only gains a property that is not one of its cells. Indices
      of 9 and above are treated the same way here, although the game's array
      would grow; no caller passes one. */
  function SetCell(b: Board, index: int, s: Symbol): Board
  {
    if 0 <= index < 9 then b[index := Mark(s)] else b
  }

  function GetCell(b: Board, index: Index): Cell
  {
    b[index]
  }

  /** False for every index outside 0..8, whose lookup is undefined. */
  predicate IsCellEmpty(b: Board, index: int)
  {
    0 <= index < 9 && b[index] == Empty
  }

  /** Clears the cells from `i` on, in ascending order. */
  function ClearFrom(b: Board, i: nat): (r: Board)
    requires i <= 9
    ensures forall j :: 0 <= j < i ==> r[j] == b[j]
    ensures forall j :: i <= j < 9 ==> r[j] == Empty
    decreases 9 - i
  {
    if i == 9 then b else ClearFrom(b[i := Empty], i + 1)
  }

  /** Empties every cell. */
  function Init(b: Board): (r: Board)
    ensures forall j :: 0 <= j < 9 ==> r[j] == Empty
  {
    ClearFrom(b, 0)
  }

  lemma InitIsIdempotent(b: Board)
    ensures Init(b) == EmptyBoard
    ensures Init(Init(b)) == Init(b)
    ensures CountEmpty(Init(b)) == 9
  {
  }

  /** Cells that are all empty are all counted. */
  lemma {:induction false} AllEmptyCount(cells: seq<Cell>)
    requires forall i :: 0 <= i < |cells| ==> cells[i] == Empty
    ensures CountEmpty(cells) == |cells|
  {
    if |cells| > 0 {
      AllEmptyCount(cells[1..]);
    }
  }

  /** Marking an empty cell removes exactly one empty cell. */
  lemma {:induction false} FillCountsDown(cells: seq<Cell>, i: int, s: Symbol)
    requires 0 <= i < |cells| && cells[i] == Empty
    ensures CountEmpty(cells[i := Mark(s)]) == CountEmpty(cells) - 1
  {
    if i == 0 {
      assert cells[i := Mark(s)][1..] == cells[1..];
    } else {
      FillCountsDown(cells[1..], i - 1, s);
      assert cells[i := Mark(s)][1..] == cells[1..][i - 1 := Mark(s)];
    }
  }

  /** Marking any cell never adds an empty one. */
  lemma {:induction false} MarkNeverAddsEmpty(cells: seq<Cell>, i: int, s: Symbol)
    requires 0 <= i < |cells|
    ensures CountEmpty(cells[i := Mark(s)]) <= CountEmpty(cells)
  {
    if i == 0 {
      assert cells[i := Mark(s)][1..] == cells[1..];
    } else {
      MarkNeverAddsEmpty(cells[1..], i - 1, s);
      assert cells[i := Mark(s)][1..] == cells[1..][i - 1 := Mark(s)];
    }
  }

  /** No empty cell is left exactly when the count of empty cells is zero. */
  lemma {:induction false} FullIffNoEmptyCell(cells: seq<Cell>)
    ensures CountEmpty(cells) == 0 <==> forall i :: 0 <= i < |cells| ==> cells[i] != Empty
  {
    if |cells| > 0 {
      FullIffNoEmptyCell(cells[1..]);
      assert forall i :: 1 <= i < |cells| ==> cells[i] == cells[1..][i - 1];
    }
  }

  /** How the board accessors see a write: only the target cell changes and
      gets the mark, whatever it held; an empty target stops being empty and
      the count of empty cells drops by one; a target outside the board
      changes nothing. */
  lemma SetCellEffect(b: Board, index: int, s: Symbol)
    ensures forall j: Index :: j != index ==> GetCell(SetCell(b, index, s), j) == GetCell(b, j)
    ensures 0 <= index < 9 ==> GetCell(SetCell(b, index, s), index) == Mark(s)
    ensures IsCellEmpty(b, index) ==>
      && !IsCellEmpty(SetCell(b, index, s), index)
      && CountEmpty(SetCell(b, index, s)) == CountEmpty(b) - 1
    ensures CountEmpty(SetCell(b, index, s)) <= CountEmpty(b)
    ensures !(0 <= index < 9) ==> SetCell(b, index, s) == b && !IsCellEmpty(b, index)
  {
    if 0 <= index < 9 {
      MarkNeverAddsEmpty(b, index, s);
      if b[index] == Empty {
        FillCountsDown(b, index, s);
      }
    }
  }
}
