/** Plain minimax without pruning, and the proof that the alpha-beta search
    of the computer player computes the same value. */
module MinimaxReference {
  import opened GameBoard
  import opened GameLogic
  import opened AiPlayer

  /** The game value of `b`, seen from `player`, when the side to move picks
      the best child for itself and every child is looked at. */
  function Value(b: Board, maximizing: bool, player: Symbol, opponent: Symbol): (v: int)
    ensures IsScore(v)
    decreases CountEmpty(b), 1
  {
    if CheckWinState(player, b) then 10
    else if CheckWinState(opponent, b) then -10
    else if CheckDrawState(b) then 0
    else if maximizing then MaxFrom(b, player, opponent, PossibleMoves(b), 0)
    else MinFrom(b, player, opponent, PossibleMoves(b), 0)
  }

  /** The largest value of the children reached by `player` playing one of
      `moves[i..]`, or NegInf when there is none. */
  function MaxFrom(b: Board, player: Symbol, opponent: Symbol, moves: seq<Index>, i: nat): (v: int)
    requires i <= |moves| && Legal(b, moves)
    ensures if i < |moves| then IsScore(v) else v == NegInf
    decreases CountEmpty(b), 0, |moves| - i
  {
    if i == |moves| then NegInf
    else
      FillCountsDown(b, moves[i], player);
      Max(Value(b[moves[i] := Mark(player)], false, player, opponent),
          MaxFrom(b, player, opponent, moves, i + 1))
  }

  /** The smallest value of the children reached by `opponent` playing one
      of `moves[i..]`, or PosInf when there is none. */
  function MinFrom(b: Board, player: Symbol, opponent: Symbol, moves: seq<Index>, i: nat): (v: int)
    requires i <= |moves| && Legal(b, moves)
    ensures if i < |moves| then IsScore(v) else v == PosInf
    decreases CountEmpty(b), 0, |moves| - i
  {
    if i == |moves| then PosInf
    else
      FillCountsDown(b, moves[i], opponent);
      Min(Value(b[moves[i] := Mark(opponent)], true, player, opponent),
          MinFrom(b, player, opponent, moves, i + 1))
  }

  /** What fail-soft alpha-beta promises for the window (alpha, beta): a
      result inside the window is the exact value, a result at or below alpha
      bounds the value from above, one at or above beta bounds it from below. */
  predicate FailSoft(alpha: int, beta: int, r: int, v: int)
  {
    && (r <= alpha ==> v <= r)
    && (r >= beta ==> v >= r)
    && (alpha < r < beta ==> v == r)
  }

  /** Alpha-beta is a fail-soft approximation of plain minimax. */
  lemma {:induction false} MinimaxFailSoft(b: Board, maximizing: bool, player: Symbol, opponent: Symbol,
                                           alpha: int, beta: int)
    requires NegInf <= alpha < beta <= PosInf
    ensures FailSoft(alpha, beta, Minimax(b, maximizing, player, opponent, alpha, beta),
                     Value(b, maximizing, player, opponent))
    decreases CountEmpty(b), 1
  {
    var moves := PossibleMoves(b);
    if CheckWinState(player, b) || CheckWinState(opponent, b) || CheckDrawState(b) {
      TerminalAgrees(b, maximizing, player, opponent, alpha, beta);
    } else if maximizing {
      MaxOpens(b, player, opponent, alpha, beta);
      ChildrenScored(b, player, opponent);
      MaxLoopFailSoft(b, player, opponent, moves, 0, NegInf, alpha, alpha, beta, NegInf);
      FirstChildFailSoft(alpha, beta, Minimax(b, maximizing, player, opponent, alpha, beta),
                         Value(b, maximizing, player, opponent), Max(NegInf, MaxFrom(b, player, opponent, moves, 0)));
    } else {
      MinOpens(b, player, opponent, alpha, beta);
      ChildrenScored(b, player, opponent);
      MinLoopFailSoft(b, player, opponent, moves, 0, PosInf, beta, alpha, beta, PosInf);
      FirstChildFailSoft(alpha, beta, Minimax(b, maximizing, player, opponent, alpha, beta),
                         Value(b, maximizing, player, opponent), Min(PosInf, MinFrom(b, player, opponent, moves, 0)));
    }
  }

  /** Both searches give a finished board the same score. */
  lemma TerminalAgrees(b: Board, maximizing: bool, player: Symbol, opponent: Symbol, alpha: int, beta: int)
    requires CheckWinState(player, b) || CheckWinState(opponent, b) || CheckDrawState(b)
    ensures Minimax(b, maximizing, player, opponent, alpha, beta) == Value(b, maximizing, player, opponent)
  {
  }

  /** Both searches open an unfinished maximizing position with the same moves. */
  lemma MaxOpens(b: Board, player: Symbol, opponent: Symbol, alpha: int, beta: int)
    requires !(CheckWinState(player, b) || CheckWinState(opponent, b) || CheckDrawState(b))
    ensures Minimax(b, true, player, opponent, alpha, beta)
         == MaxLoop(b, player, opponent, PossibleMoves(b), 0, NegInf, alpha, beta)
    ensures Value(b, true, player, opponent) == MaxFrom(b, player, opponent, PossibleMoves(b), 0)
  {
  }

  /** Both searches open an unfinished minimizing position with the same moves. */
  lemma MinOpens(b: Board, player: Symbol, opponent: Symbol, alpha: int, beta: int)
    requires !(CheckWinState(player, b) || CheckWinState(opponent, b) || CheckDrawState(b))
    ensures Minimax(b, false, player, opponent, alpha, beta)
         == MinLoop(b, player, opponent, PossibleMoves(b), 0, PosInf, alpha, beta)
    ensures Value(b, false, player, opponent) == MinFrom(b, player, opponent, PossibleMoves(b), 0)
  {
  }

  /** A board that is not full has a move, so the best child has a score. */
  lemma ChildrenScored(b: Board, player: Symbol, opponent: Symbol)
    requires !CheckDrawState(b)
    ensures IsScore(MaxFrom(b, player, opponent, PossibleMoves(b), 0))
    ensures IsScore(MinFrom(b, player, opponent, PossibleMoves(b), 0))
  {
  }

  lemma FirstChildFailSoft(alpha: int, beta: int, result: int, value: int, loopValue: int)
    requires FailSoft(alpha, beta, result, loopValue) && value == loopValue
    ensures FailSoft(alpha, beta, result, value)
  {
  }

  /** One iteration of the maximizing loop. */
  lemma MaxLoopStep(b: Board, player: Symbol, opponent: Symbol, moves: seq<Index>,
                    i: nat, best: int, alpha: int, beta: int)
    requires i < |moves| && Legal(b, moves)
    ensures var r := Minimax(b[moves[i] := Mark(player)], false, player, opponent, alpha, beta);
      && MaxLoop(b, player, opponent, moves, i, best, alpha, beta) ==
           (if Max(Max(best, r), alpha) >= beta then Max(best, r)
            else MaxLoop(b, player, opponent, moves, i + 1, Max(best, r), Max(Max(best, r), alpha), beta))
      && MaxFrom(b, player, opponent, moves, i) ==
           Max(Value(b[moves[i] := Mark(player)], false, player, opponent), MaxFrom(b, player, opponent, moves, i + 1))
      && CountEmpty(b[moves[i] := Mark(player)]) < CountEmpty(b)
  {
    FillCountsDown(b, moves[i], player);
  }

  /** One iteration of the minimizing loop. */
  lemma MinLoopStep(b: Board, player: Symbol, opponent: Symbol, moves: seq<Index>,
                    i: nat, best: int, alpha: int, beta: int)
    requires i < |moves| && Legal(b, moves)
    ensures var r := Minimax(b[moves[i] := Mark(opponent)], true, player, opponent, alpha, beta);
      && MinLoop(b, player, opponent, moves, i, best, alpha, beta) ==
           (if alpha >= Min(Min(best, r), beta) then Min(best, r)
            else MinLoop(b, player, opponent, moves, i + 1, Min(best, r), alpha, Min(Min(best, r), beta)))
      && MinFrom(b, player, opponent, moves, i) ==
           Min(Value(b[moves[i] := Mark(opponent)], true, player, opponent), MinFrom(b, player, opponent, moves, i + 1))
      && CountEmpty(b[moves[i] := Mark(opponent)]) < CountEmpty(b)
  {
    FillCountsDown(b, moves[i], opponent);
  }

  /** One step of the maximizing loop on plain numbers: the child's result
      `r` with value `cv`, searched with window (alpha, beta), updates `best`
      and `alpha`. If the loop goes on, the invariant holds again for the new
      state, with `pm` raised to cover the child. */
  lemma MaxStepKeepsInvariant(alpha0: int, beta: int, alpha: int, best: int, pm: int, r: int, cv: int)
    requires NegInf <= alpha0 < beta && alpha == Max(alpha0, best) && alpha < beta
    requires NegInf <= pm <= best && (best > alpha0 ==> pm == best)
    requires FailSoft(alpha, beta, r, cv) && IsScore(cv)
    requires Max(Max(best, r), alpha) < beta
    ensures Max(Max(best, r), alpha) == Max(alpha0, Max(best, r))
    ensures NegInf <= Max(pm, cv) <= Max(best, r)
    ensures Max(best, r) > alpha0 ==> Max(pm, cv) == Max(best, r)
  {
  }

  /** If the maximizing loop stops after a child, the result is a lower
      bound of the node's value, at or above beta. */
  lemma MaxStepCutoff(alpha0: int, beta: int, alpha: int, best: int, pm: int, r: int, cv: int,
                      result: int, value: int, rest: int)
    requires NegInf <= alpha0 < beta && alpha == Max(alpha0, best) && alpha < beta
    requires FailSoft(alpha, beta, r, cv)
    requires Max(Max(best, r), alpha) >= beta
    requires result == Max(best, r) && value == Max(cv, rest)
    ensures FailSoft(alpha0, beta, result, Max(pm, value))
  {
  }

  /** If the maximizing loop goes on, what the rest of the loop promises is
      what the whole loop promises. */
  lemma MaxStepContinue(alpha0: int, beta: int, pm: int, cv: int,
                        result: int, value: int, restResult: int, rest: int)
    requires FailSoft(alpha0, beta, restResult, Max(Max(pm, cv), rest))
    requires result == restResult && value == Max(cv, rest)
    ensures FailSoft(alpha0, beta, result, Max(pm, value))
  {
  }

  /** The maximizing loop, entered with window (alpha0, beta) and the running
      `best` and `alpha`; `pm` is the largest value of the children already
      looked at. */
  lemma {:induction false} MaxLoopFailSoft(b: Board, player: Symbol, opponent: Symbol, moves: seq<Index>,
                                           i: nat, best: int, alpha: int, alpha0: int, beta: int, pm: int)
    requires i <= |moves| && Legal(b, moves)
    requires NegInf <= alpha0 < beta <= PosInf
    requires alpha == Max(alpha0, best) && alpha < beta
    requires NegInf <= pm <= best
    requires best > alpha0 ==> pm == best
    ensures FailSoft(alpha0, beta, MaxLoop(b, player, opponent, moves, i, best, alpha, beta),
                     Max(pm, MaxFrom(b, player, opponent, moves, i)))
    decreases CountEmpty(b), 0, |moves| - i
  {
    if i < |moves| {
      MaxLoopStep(b, player, opponent, moves, i, best, alpha, beta);
      var child := b[moves[i] := Mark(player)];
      MinimaxFailSoft(child, false, player, opponent, alpha, beta);
      var r := Minimax(child, false, player, opponent, alpha, beta);
      var cv := Value(child, false, player, opponent);
      var rest := MaxFrom(b, player, opponent, moves, i + 1);
      if Max(Max(best, r), alpha) < beta {
        MaxStepKeepsInvariant(alpha0, beta, alpha, best, pm, r, cv);
        MaxLoopFailSoft(b, player, opponent, moves, i + 1, Max(best, r), Max(Max(best, r), alpha), alpha0, beta, Max(pm, cv));
        MaxStepContinue(alpha0, beta, pm, cv, MaxLoop(b, player, opponent, moves, i, best, alpha, beta),
                        MaxFrom(b, player, opponent, moves, i),
                        MaxLoop(b, player, opponent, moves, i + 1, Max(best, r), Max(Max(best, r), alpha), beta), rest);
      } else {
        MaxStepCutoff(alpha0, beta, alpha, best, pm, r, cv, MaxLoop(b, player, opponent, moves, i, best, alpha, beta),
                      MaxFrom(b, player, opponent, moves, i), rest);
      }
    }
  }

  /** One step of the minimizing loop on plain numbers. */
  lemma MinStepKeepsInvariant(alpha: int, beta0: int, beta: int, best: int, pm: int, r: int, cv: int)
    requires alpha < beta0 <= PosInf && beta == Min(beta0, best) && alpha < beta
    requires best <= pm <= PosInf && (best < beta0 ==> pm == best)
    requires FailSoft(alpha, beta, r, cv) && IsScore(cv)
    requires alpha < Min(Min(best, r), beta)
    ensures Min(Min(best, r), beta) == Min(beta0, Min(best, r))
    ensures Min(best, r) <= Min(pm, cv) <= PosInf
    ensures Min(best, r) < beta0 ==> Min(pm, cv) == Min(best, r)
  {
  }

  /** If the minimizing loop stops after a child, the result is an upper
      bound of the node's value, at or below alpha. */
  lemma MinStepCutoff(alpha: int, beta0: int, beta: int, best: int, pm: int, r: int, cv: int,
                      result: int, value: int, rest: int)
    requires alpha < beta0 && beta == Min(beta0, best) && alpha < beta
    requires FailSoft(alpha, beta, r, cv)
    requires alpha >= Min(Min(best, r), beta)
    requires result == Min(best, r) && value == Min(cv, rest)
    ensures FailSoft(alpha, beta0, result, Min(pm, value))
  {
  }

  /** If the minimizing loop goes on, what the rest of the loop promises is
      what the whole loop promises. */
  lemma MinStepContinue(alpha: int, beta0: int, pm: int, cv: int,
                        result: int, value: int, restResult: int, rest: int)
    requires FailSoft(alpha, beta0, restResult, Min(Min(pm, cv), rest))
    requires result == restResult && value == Min(cv, rest)
    ensures FailSoft(alpha, beta0, result, Min(pm, value))
  {
  }

  /** The minimizing loop, entered with window (alpha, beta0) and the running
      `best` and `beta`; `pm` is the smallest value of the children already
      looked at. */
  lemma {:induction false} MinLoopFailSoft(b: Board, player: Symbol, opponent: Symbol, moves: seq<Index>,
                                           i: nat, best: int, beta: int, alpha: int, beta0: int, pm: int)
    requires i <= |moves| && Legal(b, moves)
    requires NegInf <= alpha < beta0 <= PosInf
    requires beta == Min(beta0, best) && alpha < beta
    requires best <= pm <= PosInf
    requires best < beta0 ==> pm == best
    ensures FailSoft(alpha, beta0, MinLoop(b, player, opponent, moves, i, best, alpha, beta),
                     Min(pm, MinFrom(b, player, opponent, moves, i)))
    decreases CountEmpty(b), 0, |moves| - i
  {
    if i < |moves| {
      MinLoopStep(b, player, opponent, moves, i, best, alpha, beta);
      var child := b[moves[i] := Mark(opponent)];
      MinimaxFailSoft(child, true, player, opponent, alpha, beta);
      var r := Minimax(child, true, player, opponent, alpha, beta);
      var cv := Value(child, true, player, opponent);
      var rest := MinFrom(b, player, opponent, moves, i + 1);
      if alpha < Min(Min(best, r), beta) {
        MinStepKeepsInvariant(alpha, beta0, beta, best, pm, r, cv);
        MinLoopFailSoft(b, player, opponent, moves, i + 1, Min(best, r), Min(Min(best, r), beta), alpha, beta0, Min(pm, cv));
        MinStepContinue(alpha, beta0, pm, cv, MinLoop(b, player, opponent, moves, i, best, alpha, beta),
                        MinFrom(b, player, opponent, moves, i),
                        MinLoop(b, player, opponent, moves, i + 1, Min(best, r), alpha, Min(Min(best, r), beta)), rest);
      } else {
        MinStepCutoff(alpha, beta0, beta, best, pm, r, cv, MinLoop(b, player, opponent, moves, i, best, alpha, beta),
                      MinFrom(b, player, opponent, moves, i), rest);
      }
    }
  }

  /** Called with the full window, alpha-beta returns the plain minimax value. */
  lemma MinimaxIsPlainMinimax(b: Board, maximizing: bool, player: Symbol, opponent: Symbol)
    ensures Minimax(b, maximizing, player, opponent, NegInf, PosInf) == Value(b, maximizing, player, opponent)
  {
    MinimaxFailSoft(b, maximizing, player, opponent, NegInf, PosInf);
  }

  /** The plain minimax value, for `s`, of playing cell `j`. */
  function ChildValue(b: Board, s: Symbol, j: Index): int
  {
    Value(b[j := Mark(s)], false, s, Opponent(s))
  }

  /** `m` is the lowest empty cell whose plain minimax value is maximal. */
  predicate LowestBestCell(b: Board, s: Symbol, m: int)
  {
    && IsCellEmpty(b, m)
    && (forall j {:trigger ChildValue(b, s, j)} :: 0 <= j < 9 && b[j] == Empty ==> ChildValue(b, s, j) <= ChildValue(b, s, m))
    && (forall j {:trigger ChildValue(b, s, j)} :: 0 <= j < m && b[j] == Empty ==> ChildValue(b, s, j) < ChildValue(b, s, m))
  }

  /** The root's pruned score of a cell is its plain minimax value. */
  lemma ScoreIsChildValue(b: Board, s: Symbol, j: Index)
    requires b[j] == Empty
    ensures Score(b, s, j) == ChildValue(b, s, j)
  {
    MinimaxIsPlainMinimax(b[j := Mark(s)], false, s, Opponent(s));
  }

  /** The root's choice, read through scores, is the lowest cell of maximal value. */
  lemma ScoresToValues(b: Board, s: Symbol, m: Index)
    requires b[m] == Empty
    requires forall j {:trigger Score(b, s, j)} :: 0 <= j < 9 && b[j] == Empty ==> Score(b, s, j) <= Score(b, s, m)
    requires forall j {:trigger Score(b, s, j)} :: 0 <= j < m && b[j] == Empty ==> Score(b, s, j) < Score(b, s, m)
    ensures LowestBestCell(b, s, m)
  {
    ScoreIsChildValue(b, s, m);
    forall j | 0 <= j < 9 && b[j] == Empty
      ensures ChildValue(b, s, j) <= ChildValue(b, s, m)
      ensures j < m ==> ChildValue(b, s, j) < ChildValue(b, s, m)
    {
      ScoreIsChildValue(b, s, j);
    }
  }

  lemma BestMoveIsLowestBest(b: Board, s: Symbol)
    requires !CheckDrawState(b)
    ensures LowestBestCell(b, s, FindBestMove(b, s))
  {
    ScoresToValues(b, s, FindBestMove(b, s));
  }

  /** At most one cell is the lowest one of maximal value. */
  lemma LowestBestIsUnique(b: Board, s: Symbol, m: int, n: int)
    requires LowestBestCell(b, s, m) && LowestBestCell(b, s, n)
    ensures m == n
  {
    var valueM, valueN := ChildValue(b, s, m), ChildValue(b, s, n);
  }

  /** On a board that is not full, the best move is exactly the lowest empty
      cell that maximises the plain minimax value of the position after it. */
  lemma FindBestMoveMaximisesValue(b: Board, s: Symbol, m: int)
    requires !CheckDrawState(b)
    ensures m == FindBestMove(b, s) <==> LowestBestCell(b, s, m)
  {
    BestMoveIsLowestBest(b, s);
    if LowestBestCell(b, s, m) {
      LowestBestIsUnique(b, s, m, FindBestMove(b, s));
    }
  }
}
