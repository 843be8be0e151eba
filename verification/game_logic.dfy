/** Win and draw rules, and the running/winner state that a move updates. */
module GameLogic {
  import opened GameBoard

  /** The eight winning lines in the order the game lists them: the three
      columns, the three rows, then the two diagonals. */
  const WinStates: seq<seq<Index>> :=
    [[0, 3, 6], [1, 4, 7], [2, 5, 8], [0, 1, 2], [3, 4, 5], [6, 7, 8], [6, 4, 2], [0, 4, 8]]

  /** Every cell of `line` holds `s`. */
  predicate LineOwned(b: Board, line: seq<Index>, s: Symbol)
  {
    forall j :: 0 <= j < |line| ==> b[line[j]] == Mark(s)
  }

  /** `s` has won: some line of the table is entirely `s`. */
  predicate CheckWinState(s: Symbol, b: Board)
  {
    exists k :: 0 <= k < |WinStates| && LineOwned(b, WinStates[k], s)
  }

  /** The board is full. Winners are not looked at: callers check for a win
      first. */
  predicate CheckDrawState(b: Board)
  {
    forall i :: 0 <= i < 9 ==> b[i] != Empty
  }

  // A geometric reading of a win, independent of the table above.

  function At(b: Board, row: int, col: int): Cell
    requires 0 <= row < 3 && 0 <= col < 3
  {
    b[3 * row + col]
  }

  predicate RowOwned(b: Board, row: int, s: Symbol)
    requires 0 <= row < 3
  {
    forall col :: 0 <= col < 3 ==> At(b, row, col) == Mark(s)
  }

  predicate ColumnOwned(b: Board, col: int, s: Symbol)
    requires 0 <= col < 3
  {
    forall row :: 0 <= row < 3 ==> At(b, row, col) == Mark(s)
  }

  predicate DiagonalOwned(b: Board, s: Symbol)
  {
    forall k :: 0 <= k < 3 ==> At(b, k, k) == Mark(s)
  }

  predicate AntiDiagonalOwned(b: Board, s: Symbol)
  {
    forall row, col :: 0 <= row < 3 && 0 <= col < 3 && row + col == 2 ==> At(b, row, col) == Mark(s)
  }

  /** Three in a row: a full row, column or diagonal of the 3x3 grid. */
  predicate HasLine(b: Board, s: Symbol)
  {
    || (exists row :: 0 <= row < 3 && RowOwned(b, row, s))
    || (exists col :: 0 <= col < 3 && ColumnOwned(b, col, s))
    || DiagonalOwned(b, s)
    || AntiDiagonalOwned(b, s)
  }

  lemma LineOwnedCells(b: Board, k: int, s: Symbol)
    requires 0 <= k < |WinStates|
    ensures LineOwned(b, WinStates[k], s) <==>
      b[WinStates[k][0]] == Mark(s) && b[WinStates[k][1]] == Mark(s) && b[WinStates[k][2]] == Mark(s)
  {
  }

  /** The table holds exactly the rows, columns and diagonals of the grid. */
  lemma WinStateIffLine(s: Symbol, b: Board)
    ensures CheckWinState(s, b) <==> HasLine(b, s)
  {
    forall k | 0 <= k < |WinStates|
      ensures LineOwned(b, WinStates[k], s) ==> HasLine(b, s)
    {
      LineOwnedCells(b, k, s);
      if LineOwned(b, WinStates[k], s) {
        if k < 3 {
          assert ColumnOwned(b, k, s);
        } else if k < 6 {
          assert RowOwned(b, k - 3, s);
        } else if k == 6 {
          assert AntiDiagonalOwned(b, s);
        } else {
          assert DiagonalOwned(b, s);
        }
      }
    }
    if HasLine(b, s) {
      if row :| 0 <= row < 3 && RowOwned(b, row, s) {
        assert At(b, row, 0) == Mark(s) && At(b, row, 1) == Mark(s) && At(b, row, 2) == Mark(s);
        LineOwnedCells(b, row + 3, s);
        assert LineOwned(b, WinStates[row + 3], s);
      } else if col :| 0 <= col < 3 && ColumnOwned(b, col, s) {
        assert At(b, 0, col) == Mark(s) && At(b, 1, col) == Mark(s) && At(b, 2, col) == Mark(s);
        LineOwnedCells(b, col, s);
        assert LineOwned(b, WinStates[col], s);
      } else if DiagonalOwned(b, s) {
        assert At(b, 0, 0) == Mark(s) && At(b, 1, 1) == Mark(s) && At(b, 2, 2) == Mark(s);
        LineOwnedCells(b, 7, s);
        assert LineOwned(b, WinStates[7], s);
      } else {
        assert At(b, 0, 2) == Mark(s) && At(b, 1, 1) == Mark(s) && At(b, 2, 0) == Mark(s);
        LineOwnedCells(b, 6, s);
        assert LineOwned(b, WinStates[6], s);
      }
    }
  }

  /** The win test spelled out cell by cell, line by line of the table. */
  predicate ThreeInLine(b: Board, s: Symbol, i: Index, j: Index, k: Index)
  {
    b[i] == Mark(s) && b[j] == Mark(s) && b[k] == Mark(s)
  }

  lemma WinStateCells(s: Symbol, b: Board)
    ensures CheckWinState(s, b) <==>
      || ThreeInLine(b, s, 0, 3, 6) || ThreeInLine(b, s, 1, 4, 7) || ThreeInLine(b, s, 2, 5, 8)
      || ThreeInLine(b, s, 0, 1, 2) || ThreeInLine(b, s, 3, 4, 5) || ThreeInLine(b, s, 6, 7, 8)
      || ThreeInLine(b, s, 6, 4, 2) || ThreeInLine(b, s, 0, 4, 8)
  {
    forall k | 0 <= k < |WinStates|
      ensures LineOwned(b, WinStates[k], s) <==>
        ThreeInLine(b, s, WinStates[k][0], WinStates[k][1], WinStates[k][2])
    {
      LineOwnedCells(b, k, s);
    }
    if ThreeInLine(b, s, 0, 3, 6) { assert LineOwned(b, WinStates[0], s); }
    if ThreeInLine(b, s, 1, 4, 7) { assert LineOwned(b, WinStates[1], s); }
    if ThreeInLine(b, s, 2, 5, 8) { assert LineOwned(b, WinStates[2], s); }
    if ThreeInLine(b, s, 0, 1, 2) { assert LineOwned(b, WinStates[3], s); }
    if ThreeInLine(b, s, 3, 4, 5) { assert LineOwned(b, WinStates[4], s); }
    if ThreeInLine(b, s, 6, 7, 8) { assert LineOwned(b, WinStates[5], s); }
    if ThreeInLine(b, s, 6, 4, 2) { assert LineOwned(b, WinStates[6], s); }
    if ThreeInLine(b, s, 0, 4, 8) { assert LineOwned(b, WinStates[7], s); }
  }

  /** Nobody has won on the empty board. */
  lemma NoWinOnEmptyBoard(s: Symbol)
    ensures !CheckWinState(s, EmptyBoard)
  {
    forall k | 0 <= k < |WinStates|
      ensures !LineOwned(EmptyBoard, WinStates[k], s)
    {
      LineOwnedCells(EmptyBoard, k, s);
    }
  }

  /** A single mark on an otherwise empty board wins nothing. */
  lemma OneMarkWinsNothing(b: Board, m: Index, t: Symbol)
    requires forall i :: 0 <= i < 9 && i != m ==> b[i] == Empty
    ensures !CheckWinState(t, b)
  {
    forall k | 0 <= k < |WinStates|
      ensures !LineOwned(b, WinStates[k], t)
    {
      LineOwnedCells(b, k, t);
      assert WinStates[k][0] != WinStates[k][1];
    }
  }

  /** The draw test is exactly "no empty cell left". */
  lemma DrawIffFull(b: Board)
    ensures CheckDrawState(b) <==> CountEmpty(b) == 0
  {
    FullIffNoEmptyCell(b);
  }

  const FullBoardWonByX: Board := [Mark(X), Mark(X), Mark(X), Mark(O), Mark(O), Mark(X), Mark(X), Mark(O), Mark(O)]

  /** A full board can be won and still pass the draw test: the draw test
      alone does not give wins precedence. */
  lemma DrawTestIgnoresWinner()
    ensures CheckDrawState(FullBoardWonByX) && CheckWinState(X, FullBoardWonByX)
  {
    LineOwnedCells(FullBoardWonByX, 3, X);
  }

  /** Writing `s` never completes a line for another symbol. */
  lemma MarkKeepsOtherLines(b: Board, index: int, s: Symbol, t: Symbol)
    requires s != t
    ensures CheckWinState(t, SetCell(b, index, s)) ==> CheckWinState(t, b)
  {
  }

  /** The outcome recorded by the game: the initial null, a winner, or "draw". */
  datatype Winner = Nobody | Won(symbol: Symbol) | Draw

  datatype PlayerType = Human | Ai

  datatype Player = Player(symbol: Symbol, playerType: PlayerType)

  /** The board together with the running flag and the recorded outcome. */
  datatype State = State(board: Board, running: bool, winner: Winner)

  const Start: State := State(EmptyBoard, true, Nobody)

  /** The recorded outcome agrees with the board. */
  predicate Sound(st: State)
  {
    && (st.running ==>
         st.winner == Nobody && CountEmpty(st.board) > 0
         && !CheckWinState(X, st.board) && !CheckWinState(O, st.board))
    && (!st.running ==> st.winner != Nobody)
    && (st.winner.Won? ==>
         CheckWinState(st.winner.symbol, st.board)
         && !CheckWinState(if st.winner.symbol == X then O else X, st.board))
    && (st.winner == Draw ==>
         CountEmpty(st.board) == 0 && !CheckWinState(X, st.board) && !CheckWinState(O, st.board))
  }

  /** Places the player's mark at `index`, then records a win for that
      player, else a draw on a full board, else leaves the outcome alone. */
  function MakeMove(st: State, player: Player, index: int): (r: State)
    ensures forall i :: 0 <= i < 9 && i != index ==> r.board[i] == st.board[i]
    ensures 0 <= index < 9 ==> r.board[index] == Mark(player.symbol)
    ensures !(0 <= index < 9) ==> r.board == st.board
    ensures IsCellEmpty(st.board, index) ==> CountEmpty(r.board) == CountEmpty(st.board) - 1
    ensures CountEmpty(r.board) <= CountEmpty(st.board)
    ensures HasLine(r.board, player.symbol) ==> r.winner == Won(player.symbol) && !r.running
    ensures !HasLine(r.board, player.symbol) && CountEmpty(r.board) == 0 ==>
      r.winner == Draw && !r.running
    ensures !HasLine(r.board, player.symbol) && CountEmpty(r.board) > 0 ==>
      r.running == st.running && r.winner == st.winner
    ensures r.running ==> CountEmpty(r.board) > 0
  {
    var board := SetCell(st.board, index, player.symbol);
    SetCellEffect(st.board, index, player.symbol);
    WinStateIffLine(player.symbol, board);
    DrawIffFull(board);
    if CheckWinState(player.symbol, board) then State(board, false, Won(player.symbol))
    else if CheckDrawState(board) then State(board, false, Draw)
    else State(board, st.running, st.winner)
  }

  /** A move made while the game runs keeps the outcome in agreement with the board. */
  lemma MakeMoveKeepsSound(st: State, player: Player, index: int)
    requires Sound(st) && st.running
    ensures Sound(MakeMove(st, player, index))
  {
  }

  /** Back to an empty board, running, with no outcome recorded. */
  function Reset(st: State): (r: State)
    ensures r.running && r.winner == Nobody
    ensures forall i :: 0 <= i < 9 ==> r.board[i] == Empty
    ensures Sound(r)
  {
    InitIsIdempotent(st.board);
    NoWinOnEmptyBoard(X);
    NoWinOnEmptyBoard(O);
    State(Init(st.board), true, Nobody)
  }
}
