/** The computer player: legal moves, minimax with alpha-beta pruning, and
    the choice of the best move. */
module AiPlayer {
  import opened GameBoard
  import opened GameLogic

  function Opponent(s: Symbol): (o: Symbol)
    ensures o != s
  {
    if s == X then O else X
  }

  /** Stand-ins for -Infinity and +Infinity: every real score lies in -10..10. */
  const NegInf: int := -100
  const PosInf: int := 100

  /** The three scores a finished position can have. */
  predicate IsScore(v: int)
  {
    v == -10 || v == 0 || v == 10
  }

  function Max(a: int, b: int): int
  {
    if a >= b then a else b
  }

  function Min(a: int, b: int): int
  {
    if a <= b then a else b
  }

  /** Moves whose cells are all empty on `b`. */
  predicate Legal(b: Board, moves: seq<Index>)
  {
    forall m :: m in moves ==> b[m] == Empty
  }

  predicate Ascending(moves: seq<Index>)
  {
    forall k, l :: 0 <= k < l < |moves| ==> moves[k] < moves[l]
  }

  /** The empty cells from `i` on, in ascending order. */
  function EmptyFrom(b: Board, i: nat): (moves: seq<Index>)
    requires i <= 9
    ensures forall m :: m in moves <==> i <= m < 9 && b[m] == Empty
    ensures Ascending(moves)
    ensures |moves| == CountEmpty(b[i..])
    decreases 9 - i
  {
    if i == 9 then []
    else
      assert b[i..][1..] == b[i + 1..];
      var rest := EmptyFrom(b, i + 1);
      AboveStart(b, i + 1, rest);
      (if b[i] == Empty then [i] else []) + rest
  }

  /** Every move listed from `start` on is at least `start`. */
  lemma AboveStart(b: Board, start: nat, rest: seq<Index>)
    requires forall m :: m in rest <==> start <= m < 9 && b[m] == Empty
    ensures forall k :: 0 <= k < |rest| ==> start <= rest[k]
  {
    forall k | 0 <= k < |rest|
      ensures start <= rest[k]
    {
      assert rest[k] in rest;
    }
  }

  /** The indices of the empty cells, strictly ascending. */
  function PossibleMoves(b: Board): (moves: seq<Index>)
    ensures forall i :: 0 <= i < 9 ==> (i in moves <==> b[i] == Empty)
    ensures Legal(b, moves)
    ensures Ascending(moves)
    ensures |moves| == CountEmpty(b)
    ensures |moves| == 0 <==> CheckDrawState(b)
  {
    assert b[0..] == b;
    DrawIffFull(b);
    EmptyFrom(b, 0)
  }

  /** Alpha-beta minimax. Scores are seen from `player`: 10 when `player` has
      won, -10 when `opponent` has, 0 on a full board; they do not depend on
      depth. */
  function Minimax(b: Board, maximizing: bool, player: Symbol, opponent: Symbol,
                   alpha: int, beta: int): (v: int)
    ensures IsScore(v)
    decreases CountEmpty(b), 1
  {
    if CheckWinState(player, b) then 10
    else if CheckWinState(opponent, b) then -10
    else if CheckDrawState(b) then 0
    else if maximizing then MaxLoop(b, player, opponent, PossibleMoves(b), 0, NegInf, alpha, beta)
    else MinLoop(b, player, opponent, PossibleMoves(b), 0, PosInf, alpha, beta)
  }

  /** The maximizing loop from the `i`-th move on: `player` moves, `best` and
      `alpha` are raised, and the loop stops once `alpha >= beta`. */
  function MaxLoop(b: Board, player: Symbol, opponent: Symbol, moves: seq<Index>, i: nat,
                   best: int, alpha: int, beta: int): (v: int)
    requires i <= |moves| && Legal(b, moves)
    ensures (i < |moves| && best == NegInf) || IsScore(best) ==> IsScore(v)
    decreases CountEmpty(b), 0, |moves| - i
  {
    if i == |moves| then best
    else
      FillCountsDown(b, moves[i], player);
      var value := Minimax(b[moves[i] := Mark(player)], false, player, opponent, alpha, beta);
      var best' := Max(best, value);
      var alpha' := Max(best', alpha);
      if alpha' >= beta then best'
      else MaxLoop(b, player, opponent, moves, i + 1, best', alpha', beta)
  }

  /** The minimizing loop: `opponent` moves, `best` and `beta` are lowered. */
  function MinLoop(b: Board, player: Symbol, opponent: Symbol, moves: seq<Index>, i: nat,
                   best: int, alpha: int, beta: int): (v: int)
    requires i <= |moves| && Legal(b, moves)
    ensures (i < |moves| && best == PosInf) || IsScore(best) ==> IsScore(v)
    decreases CountEmpty(b), 0, |moves| - i
  {
    if i == |moves| then best
    else
      FillCountsDown(b, moves[i], opponent);
      var value := Minimax(b[moves[i] := Mark(opponent)], true, player, opponent, alpha, beta);
      var best' := Min(best, value);
      var beta' := Min(best', beta);
      if alpha >= beta' then best'
      else MinLoop(b, player, opponent, moves, i + 1, best', alpha, beta')
  }

  /** The score the root gives to `s` playing cell `m`. */
  function Score(b: Board, s: Symbol, m: Index): int
    requires b[m] == Empty
  {
    Minimax(b[m := Mark(s)], false, s, Opponent(s), NegInf, PosInf)
  }

  /** `m` is the lowest of `moves` whose score is maximal among them. */
  predicate BestAmong(b: Board, s: Symbol, moves: seq<Index>, m: int)
    requires Legal(b, moves)
  {
    && 0 <= m < 9 && m in moves
    && (forall x :: x in moves ==> Score(b, s, x) <= Score(b, s, m))
    && (forall x :: x in moves && x < m ==> Score(b, s, x) < Score(b, s, m))
  }

  /** The root loop: a move replaces the best one only on a strictly higher score. */
  function BestLoop(b: Board, s: Symbol, moves: seq<Index>, i: nat,
                    bestScore: int, bestMove: int): (r: int)
    requires i <= |moves| && Legal(b, moves) && Ascending(moves)
    requires i == 0 ==> bestScore == NegInf && bestMove == -1
    requires i > 0 ==> BestAmong(b, s, moves[..i], bestMove) && bestScore == Score(b, s, bestMove)
    ensures |moves| == 0 ==> r == -1
    ensures |moves| > 0 ==> BestAmong(b, s, moves, r)
    decreases |moves| - i
  {
    if i == |moves| then
      assert moves[..i] == moves;
      bestMove
    else
      var score := Score(b, s, moves[i]);
      BestLoopStep(b, s, moves, i, bestScore, bestMove);
      if score > bestScore then BestLoop(b, s, moves, i + 1, score, moves[i])
      else BestLoop(b, s, moves, i + 1, bestScore, bestMove)
  }

  /** One step of the root loop keeps `BestAmong` on the moves seen so far. */
  lemma BestLoopStep(b: Board, s: Symbol, moves: seq<Index>, i: nat, bestScore: int, bestMove: int)
    requires i < |moves| && Legal(b, moves) && Ascending(moves)
    requires i == 0 ==> bestScore == NegInf && bestMove == -1
    requires i > 0 ==> BestAmong(b, s, moves[..i], bestMove) && bestScore == Score(b, s, bestMove)
    ensures Legal(b, moves[..i + 1])
    ensures Score(b, s, moves[i]) > bestScore ==> BestAmong(b, s, moves[..i + 1], moves[i])
    ensures Score(b, s, moves[i]) <= bestScore ==> i > 0 && BestAmong(b, s, moves[..i + 1], bestMove)
  {
    var seen := moves[..i + 1];
    assert seen == moves[..i] + [moves[i]];
    assert forall x :: x in seen <==> x in moves[..i] || x == moves[i];
    if i == 0 {
      assert Score(b, s, moves[i]) > bestScore;
    } else {
      var k :| 0 <= k < i && moves[..i][k] == bestMove;
      assert bestMove < moves[i];
      if Score(b, s, moves[i]) > bestScore {
        BestReplaced(b, s, moves[..i], moves[i], bestMove);
      } else {
        BestKept(b, s, moves[..i], moves[i], bestMove);
      }
    }
  }

  /** A strictly higher score on a later move makes it the best. */
  lemma BestReplaced(b: Board, s: Symbol, seen: seq<Index>, next: Index, bestMove: int)
    requires Legal(b, seen) && b[next] == Empty && BestAmong(b, s, seen, bestMove)
    requires forall x :: x in seen ==> x < next
    requires Score(b, s, next) > Score(b, s, bestMove)
    ensures Legal(b, seen + [next]) && BestAmong(b, s, seen + [next], next)
  {
    forall x | x in seen + [next]
      ensures Score(b, s, x) <= Score(b, s, next)
      ensures x < next ==> Score(b, s, x) < Score(b, s, next)
    {
      if x != next {
        assert x in seen;
        assert Score(b, s, x) <= Score(b, s, bestMove);
      }
    }
  }

  /** A score no higher on a later move keeps the best move. */
  lemma BestKept(b: Board, s: Symbol, seen: seq<Index>, next: Index, bestMove: int)
    requires Legal(b, seen) && b[next] == Empty && BestAmong(b, s, seen, bestMove)
    requires bestMove < next
    requires Score(b, s, next) <= Score(b, s, bestMove)
    ensures Legal(b, seen + [next]) && BestAmong(b, s, seen + [next], bestMove)
  {
  }

  /** -1 on a full board; otherwise the lowest empty cell whose minimax score
      is maximal among all empty cells. */
  function FindBestMove(b: Board, s: Symbol): (m: int)
    ensures m == -1 <==> CheckDrawState(b)
    ensures m != -1 ==> IsCellEmpty(b, m)
    ensures m != -1 ==> forall j {:trigger Score(b, s, j)} :: 0 <= j < 9 && b[j] == Empty ==> Score(b, s, j) <= Score(b, s, m)
    ensures m != -1 ==> forall j {:trigger Score(b, s, j)} :: 0 <= j < m && b[j] == Empty ==> Score(b, s, j) < Score(b, s, m)
  {
    var moves := PossibleMoves(b);
    var m := BestLoop(b, s, moves, 0, NegInf, -1);
    if |moves| == 0 then m
    else
      BestAmongEmptyCells(b, s, m);
      m
  }

  /** Reads `BestAmong` over the legal moves as a statement about cells. */
  lemma BestAmongEmptyCells(b: Board, s: Symbol, m: int)
    requires BestAmong(b, s, PossibleMoves(b), m)
    ensures IsCellEmpty(b, m)
    ensures forall j {:trigger Score(b, s, j)} :: 0 <= j < 9 && b[j] == Empty ==> Score(b, s, j) <= Score(b, s, m)
    ensures forall j {:trigger Score(b, s, j)} :: 0 <= j < m && b[j] == Empty ==> Score(b, s, j) < Score(b, s, m)
  {
    var moves := PossibleMoves(b);
    forall j | 0 <= j < 9 && b[j] == Empty
      ensures Score(b, s, j) <= Score(b, s, m)
      ensures j < m ==> Score(b, s, j) < Score(b, s, m)
    {
      assert j in moves;
    }
  }

  /** With one empty cell left, that cell is the only legal move. */
  lemma LastEmptyCell(b: Board, i: Index)
    requires CountEmpty(b) == 1 && b[i] == Empty
    ensures |PossibleMoves(b)| == 1 && PossibleMoves(b)[0] == i
  {
  }

  /** With one empty cell left, that cell is the best move. */
  lemma BestMoveOfLastCell(b: Board, s: Symbol, i: Index)
    requires CountEmpty(b) == 1 && b[i] == Empty
    ensures FindBestMove(b, s) == i
  {
    LastEmptyCell(b, i);
  }

  /** The random player, as a choice of some empty cell: which one is picked
      is left open. */
  method RandomAiMove(b: Board) returns (m: int)
    requires CountEmpty(b) > 0
    ensures IsCellEmpty(b, m)
  {
    FullIffNoEmptyCell(b);
    m :| 0 <= m < 9 && b[m] == Empty;
  }
}
