/** The controller: whose turn it is, the human move with the computer's
    reply, the computer-against-computer loop, and restarting. */
module GameController {
  import opened GameBoard
  import opened GameLogic
  import opened AiPlayer

  /** The game state plus the two players and the index of the one to move. */
  datatype Game = Game(state: State, players: seq<Player>, current: int)

  /** Player 0 plays X, player 1 plays O, the turn index is 0 or 1, and a
      running game has an empty cell left. */
  predicate Valid(g: Game)
  {
    && |g.players| == 2
    && g.players[0].symbol == X && g.players[1].symbol == O
    && (g.current == 0 || g.current == 1)
    && (g.state.running ==> CountEmpty(g.state.board) > 0)
  }

  /** A human X against the computer as O, X to move. */
  const Initial: Game := Game(Start, [Player(X, Human), Player(O, Ai)], 0)

  lemma InitialIsValid()
    ensures Valid(Initial) && Sound(Initial.state)
  {
    InitIsIdempotent(EmptyBoard);
    NoWinOnEmptyBoard(X);
    NoWinOnEmptyBoard(O);
  }

  function CurrentPlayer(g: Game): Player
    requires Valid(g)
  {
    g.players[g.current]
  }

  function OtherPlayer(g: Game): Player
    requires Valid(g)
  {
    g.players[1 - g.current]
  }

  /** Hands the turn to the other player. */
  function ToggleCurrentPlayer(g: Game): (r: Game)
    ensures Valid(g) ==> Valid(r) && r.current != g.current
    ensures r.state == g.state && r.players == g.players
  {
    g.(current := 1 - g.current)
  }

  /** Replaces both players, X first. */
  function SetPlayers(g: Game, playerX: PlayerType, playerO: PlayerType): (r: Game)
    requires Valid(g)
    ensures Valid(r)
    ensures r.players[0].playerType == playerX && r.players[1].playerType == playerO
    ensures r.state == g.state && r.current == g.current
  {
    g.(players := [Player(X, playerX), Player(O, playerO)])
  }

  /** The computer plays its best move for `player`. On a full board the best
      move is -1: the write then changes no cell, and the move is recorded as
      a draw unless `player` already has a line. */
  function AiMove(g: Game, player: Player): (r: Game)
    ensures r.players == g.players && r.current == g.current
    ensures Valid(g) ==> Valid(r)
    ensures forall i :: 0 <= i < 9 && g.state.board[i] != Empty ==> r.state.board[i] == g.state.board[i]
    ensures var m := FindBestMove(g.state.board, player.symbol);
      && (m != -1 ==> r.state.board[m] == Mark(player.symbol))
      && (forall i :: 0 <= i < 9 && i != m ==> r.state.board[i] == g.state.board[i])
  {
    var m := FindBestMove(g.state.board, player.symbol);
    g.(state := MakeMove(g.state, player, m))
  }

  /** The computer fills exactly one empty cell when there is one; on a full
      board it changes no cell and the game is over. */
  lemma AiMoveCounts(g: Game, player: Player)
    ensures !CheckDrawState(g.state.board) ==>
      CountEmpty(AiMove(g, player).state.board) == CountEmpty(g.state.board) - 1
    ensures CheckDrawState(g.state.board) ==>
      AiMove(g, player).state.board == g.state.board && !AiMove(g, player).state.running
  {
  }

  /** A computer move made while the game runs keeps the outcome in agreement
      with the board. */
  lemma AiMoveKeepsSound(g: Game, player: Player)
    ensures Sound(g.state) && g.state.running ==> Sound(AiMove(g, player).state)
  {
    if Sound(g.state) && g.state.running {
      MakeMoveKeepsSound(g.state, player, FindBestMove(g.state.board, player.symbol));
    }
  }

  /** The first half of a click: a human to move marks the cell and hands
      over the turn; a computer to move does nothing here. */
  function HumanStep(g: Game, index: int): (r: Game)
    requires Valid(g) && IsCellEmpty(g.state.board, index)
    ensures Valid(r) && r.players == g.players
    ensures forall i :: 0 <= i < 9 && g.state.board[i] != Empty ==> r.state.board[i] == g.state.board[i]
    ensures CurrentPlayer(g).playerType == Human ==>
      && r.current == 1 - g.current
      && r.state == MakeMove(g.state, CurrentPlayer(g), index)
    ensures CurrentPlayer(g).playerType == Ai ==> r == g
  {
    if CurrentPlayer(g).playerType == Human
    then ToggleCurrentPlayer(g.(state := MakeMove(g.state, CurrentPlayer(g), index)))
    else g
  }

  /** The second half of a click: if `other` is the computer it replies and
      the turn is handed back. */
  function ReplyStep(g: Game, other: Player): (r: Game)
    requires Valid(g)
    ensures Valid(r) && r.players == g.players
    ensures forall i :: 0 <= i < 9 && g.state.board[i] != Empty ==> r.state.board[i] == g.state.board[i]
    ensures other.playerType == Ai ==> r.current == 1 - g.current && r.state == AiMove(g, other).state
    ensures other.playerType == Human ==> r == g
  {
    if other.playerType == Ai then ToggleCurrentPlayer(AiMove(g, other)) else g
  }

  /** A click on cell `index`. Nothing happens on a marked cell or a finished
      game. A human to move marks the cell and hands over the turn; then, if
      the other player is the computer, it replies and hands the turn back.
      The reply is made whether or not the human's move ended the game. */
  function Move(g: Game, index: int): (r: Game)
    requires Valid(g)
    ensures Valid(r) && r.players == g.players
    ensures !IsCellEmpty(g.state.board, index) || !g.state.running ==> r == g
    ensures forall i :: 0 <= i < 9 && g.state.board[i] != Empty ==> r.state.board[i] == g.state.board[i]
    ensures CurrentPlayer(g).playerType == Human && OtherPlayer(g).playerType == Ai ==>
      r.current == g.current
    ensures CurrentPlayer(g).playerType == Ai && OtherPlayer(g).playerType == Human ==> r == g
  {
    if !IsCellEmpty(g.state.board, index) || !g.state.running then g
    else ReplyStep(HumanStep(g, index), OtherPlayer(g))
  }

  /** What a human click does to the board: the clicked cell gets the human's
      mark, and between one and two cells are filled. */
  lemma HumanMoveEffect(g: Game, index: int)
    requires Valid(g) && IsCellEmpty(g.state.board, index) && g.state.running
    requires CurrentPlayer(g).playerType == Human
    ensures Move(g, index).state.board[index] == Mark(CurrentPlayer(g).symbol)
    ensures CountEmpty(g.state.board) - 2 <= CountEmpty(Move(g, index).state.board) < CountEmpty(g.state.board)
    ensures OtherPlayer(g).playerType == Human ==>
      && Move(g, index).current == 1 - g.current
      && CountEmpty(Move(g, index).state.board) == CountEmpty(g.state.board) - 1
  {
  }

  /** One computer turn: the player to move plays its best move and hands
      over the turn. */
  function AiTurn(g: Game): (r: Game)
    requires Valid(g)
    ensures Valid(r) && r.players == g.players && r.current == 1 - g.current
    ensures forall i :: 0 <= i < 9 && g.state.board[i] != Empty ==> r.state.board[i] == g.state.board[i]
    ensures g.state.running ==> CountEmpty(r.state.board) == CountEmpty(g.state.board) - 1
    ensures Sound(g.state) && g.state.running ==> Sound(r.state)
  {
    DrawIffFull(g.state.board);
    AiMoveCounts(g, CurrentPlayer(g));
    AiMoveKeepsSound(g, CurrentPlayer(g));
    ToggleCurrentPlayer(AiMove(g, CurrentPlayer(g)))
  }

  /** The computer plays both sides, the player to move first, until the
      game is over. Every round fills one cell, so there are at most as many
      rounds as empty cells, and never more than nine. */
  method AiVsAi(g: Game) returns (r: Game, rounds: nat)
    requires Valid(g)
    ensures Valid(r) && r.players == g.players && !r.state.running
    ensures rounds <= CountEmpty(g.state.board) <= 9
    ensures forall i :: 0 <= i < 9 && g.state.board[i] != Empty ==> r.state.board[i] == g.state.board[i]
    ensures Sound(g.state) ==> Sound(r.state)
    ensures !g.state.running ==> r == g && rounds == 0
  {
    r := g;
    rounds := 0;
    while r.state.running
      invariant Valid(r) && r.players == g.players
      invariant rounds + CountEmpty(r.state.board) <= CountEmpty(g.state.board)
      invariant forall i :: 0 <= i < 9 && g.state.board[i] != Empty ==> r.state.board[i] == g.state.board[i]
      invariant Sound(g.state) ==> Sound(r.state)
      invariant !g.state.running ==> r == g && rounds == 0
      decreases CountEmpty(r.state.board)
    {
      r := AiTurn(r);
      rounds := rounds + 1;
    }
  }

  /** Starts a game: if the computer is to move it plays, hands over the turn,
      and plays on alone if the other side is the computer too. */
  method Init(g: Game) returns (r: Game)
    requires Valid(g)
    ensures Valid(r) && r.players == g.players
    ensures CurrentPlayer(g).playerType == Human ==> r == g
    ensures CurrentPlayer(g).playerType == Ai && OtherPlayer(g).playerType == Human ==> r == AiTurn(g)
    ensures CurrentPlayer(g).playerType == Ai && OtherPlayer(g).playerType == Ai ==> !r.state.running
    ensures Sound(g.state) && g.state.running ==> Sound(r.state)
  {
    r := g;
    if CurrentPlayer(g).playerType == Ai {
      r := AiTurn(g);
      if OtherPlayer(g).playerType == Ai {
        var rounds;
        r, rounds := AiVsAi(r);
      }
    }
  }

  /** A first move on an empty board leaves the game running with that one
      mark and eight empty cells. */
  lemma FirstMoveKeepsRunning(st: State, player: Player, m: Index)
    requires st.running && forall i :: 0 <= i < 9 ==> st.board[i] == Empty
    ensures MakeMove(st, player, m).running
    ensures CountEmpty(MakeMove(st, player, m).board) == 8
    ensures forall i :: 0 <= i < 9 ==> MakeMove(st, player, m).board[i] != Mark(if player.symbol == X then O else X)
  {
    AllEmptyCount(st.board);
    var b := MakeMove(st, player, m).board;
    OneMarkWinsNothing(b, m, player.symbol);
    WinStateIffLine(player.symbol, b);
  }

  /** The computer's first move as X on an empty board leaves the game
      running with eight empty cells, O to move. */
  lemma OpeningAiTurn(g: Game)
    requires Valid(g) && g.current == 0 && g.state.running
    requires forall i :: 0 <= i < 9 ==> g.state.board[i] == Empty
    ensures AiTurn(g).state.running && AiTurn(g).current == 1
    ensures CountEmpty(AiTurn(g).state.board) == 8
  {
    AllEmptyCount(g.state.board);
    DrawIffFull(g.state.board);
    FirstMoveKeepsRunning(g.state, g.players[0], FindBestMove(g.state.board, X));
  }

  /** ... and puts down no O. */
  lemma OpeningAiTurnPlaysX(g: Game)
    requires Valid(g) && g.current == 0 && g.state.running
    requires forall i :: 0 <= i < 9 ==> g.state.board[i] == Empty
    ensures forall i :: 0 <= i < 9 ==> AiTurn(g).state.board[i] != Mark(O)
  {
  }

  /** Turn back to player 0, clear the game, and start again. */
  method Restart(g: Game) returns (r: Game)
    requires Valid(g)
    ensures Valid(r) && r.players == g.players && Sound(r.state)
    ensures g.players[0].playerType == Human ==> r.state == Start && r.current == 0
    ensures g.players[0].playerType == Ai && g.players[1].playerType == Human ==>
      && r.state.running && r.current == 1
      && CountEmpty(r.state.board) == 8
      && (forall i :: 0 <= i < 9 ==> r.state.board[i] != Mark(O))
    ensures g.players[0].playerType == Ai && g.players[1].playerType == Ai ==> !r.state.running
  {
    var g0 := Game(Reset(g.state), g.players, 0);
    if g.players[0].playerType == Ai {
      OpeningAiTurn(g0);
      OpeningAiTurnPlaysX(g0);
    }
    r := Init(g0);
    if g.players[0].playerType == Human {
      InitIsIdempotent(g.state.board);
    }
  }

  /** The move keeps the recorded outcome in agreement with the board, except
      when a human move against the computer ends the game: the computer
      still replies then. */
  lemma MoveKeepsSound(g: Game, index: int)
    requires Valid(g) && Sound(g.state)
    requires !(CurrentPlayer(g).playerType == Human && OtherPlayer(g).playerType == Ai
               && !MakeMove(g.state, CurrentPlayer(g), index).running)
    ensures Sound(Move(g, index).state)
  {
    if IsCellEmpty(g.state.board, index) && g.state.running {
      MakeMoveKeepsSound(g.state, CurrentPlayer(g), index);
      var g1 := HumanStep(g, index);
      AiMoveKeepsSound(g1, OtherPlayer(g));
    }
  }

  /** When a human's move against the computer wins on the last empty cell,
      the computer's unguarded reply (on the full board, at index -1) replaces
      the recorded win with a draw. */
  lemma ReplyOverwritesWin(g: Game, index: int)
    requires Valid(g) && g.state.running && IsCellEmpty(g.state.board, index)
    requires CountEmpty(g.state.board) == 1
    requires CurrentPlayer(g).playerType == Human && OtherPlayer(g).playerType == Ai
    requires CheckWinState(CurrentPlayer(g).symbol, SetCell(g.state.board, index, CurrentPlayer(g).symbol))
    requires !CheckWinState(OtherPlayer(g).symbol, g.state.board)
    ensures Move(g, index).state.winner == Draw
    ensures CheckWinState(CurrentPlayer(g).symbol, Move(g, index).state.board)
    ensures !Sound(Move(g, index).state)
  {
    var player := CurrentPlayer(g);
    var other := OtherPlayer(g);
    var board := SetCell(g.state.board, index, player.symbol);
    SetCellEffect(g.state.board, index, player.symbol);
    WinStateIffLine(player.symbol, board);
    MarkKeepsOtherLines(g.state.board, index, player.symbol, other.symbol);
    var g1 := HumanStep(g, index);
    assert g1.state.board == board;
    DrawIffFull(board);
    AiMoveCounts(g1, other);
    WinStateIffLine(other.symbol, board);
  }

  /** X, X, _ / O, O, X / X, O, O: X to move, about to complete the top row
      on the last empty cell. */
  const LastCellBoard: Board :=
    [Mark(X), Mark(X), Empty, Mark(O), Mark(O), Mark(X), Mark(X), Mark(O), Mark(O)]

  /** That position in a running game of a human X against the computer. */
  const LastCellWin: Game := Game(State(LastCellBoard, true, Nobody), [Player(X, Human), Player(O, Ai)], 0)

  lemma LastCellBoardHasNoLine()
    ensures !CheckWinState(X, LastCellBoard) && !CheckWinState(O, LastCellBoard)
  {
    WinStateCells(X, LastCellBoard);
    WinStateCells(O, LastCellBoard);
  }

  lemma LastCellBoardWins()
    ensures CheckWinState(X, SetCell(LastCellBoard, 2, X))
  {
    WinStateCells(X, SetCell(LastCellBoard, 2, X));
  }

  /** The position above is a sound running game that meets every condition
      of `ReplyOverwritesWin` for cell 2. */
  lemma LastCellWinMeetsConditions()
    ensures Valid(LastCellWin) && Sound(LastCellWin.state)
    ensures IsCellEmpty(LastCellWin.state.board, 2) && CountEmpty(LastCellWin.state.board) == 1
    ensures CheckWinState(X, SetCell(LastCellWin.state.board, 2, X))
  {
    assert CountEmpty(LastCellBoard) == 1;
    LastCellBoardHasNoLine();
    LastCellBoardWins();
  }
}
