/**
 * The fixed-depth adversarial search of the chess AI: fail-soft minimax with
 * alpha-beta pruning, White maximising and Black minimising, over one shared
 * board that every step changes with a push and restores with a pop; and the
 * root driver that picks the move to play.
 *
 * The rules engine (move generation, game-over detection and what a position
 * looks like) is not part of this model: the search sees it through Rules, a
 * record of functions of the sequence of moves played from the start of the
 * game, which is also what the board keeps.
 */
module Search {
  import opened Options
  import opened ExtendedInt
  import opened Evaluation

  /** A move from one square to another, with the kind a pawn is promoted to, if any. */
  datatype Move = Move(fromSquare: nat, toSquare: nat, promotion: Option<Kind>)

  /** The rules engine's answers about the position reached by a sequence of moves. */
  datatype Rules = Rules(
    legalMoves: seq<Move> -> seq<Move>,
    isGameOver: seq<Move> -> bool,
    position: seq<Move> -> Position)

  /** A position without legal moves is over (it is checkmate or stalemate). */
  ghost predicate WellFormed(rules: Rules) {
    forall h :: rules.legalMoves(h) == [] ==> rules.isGameOver(h)
  }

  // ---------------------------------------------------------------------------
  // Minimax without pruning: the specification of the search

  /** The value of the position reached by h, searched depth plies deep without pruning. */
  function Minimax(rules: Rules, h: seq<Move>, depth: nat): (v: ExtInt)
    decreases depth, 0
    ensures NegInf <= v <= PosInf
  {
    if depth == 0 || rules.isGameOver(h) then
      EvaluationBounded(rules.position(h));
      Evaluate(rules.position(h))
    else ChildrenValue(rules, h, depth - 1)
  }

  /** The best value for the side to move over the legal moves from h, each searched d plies deep. */
  function ChildrenValue(rules: Rules, h: seq<Move>, d: nat): (v: ExtInt)
    decreases d, |rules.legalMoves(h)| + 1
    ensures NegInf <= v <= PosInf
  {
    var ms := rules.legalMoves(h);
    if rules.position(h).turn == White then MaxOver(rules, h, d, ms, |ms|)
    else MinOver(rules, h, d, ms, |ms|)
  }

  /** The largest value of the first n of the moves ms from h, minus infinity when n is 0. */
  function MaxOver(rules: Rules, h: seq<Move>, d: nat, ms: seq<Move>, n: nat): (v: ExtInt)
    requires n <= |ms|
    decreases d, n
    ensures NegInf <= v <= PosInf
  {
    if n == 0 then NegInf
    else Max(MaxOver(rules, h, d, ms, n - 1), Minimax(rules, h + [ms[n - 1]], d))
  }

  /** The smallest value of the first n of the moves ms from h, plus infinity when n is 0. */
  function MinOver(rules: Rules, h: seq<Move>, d: nat, ms: seq<Move>, n: nat): (v: ExtInt)
    requires n <= |ms|
    decreases d, n
    ensures NegInf <= v <= PosInf
  {
    if n == 0 then PosInf
    else Min(MinOver(rules, h, d, ms, n - 1), Minimax(rules, h + [ms[n - 1]], d))
  }

  /** MaxOver is the maximum of the moves' values: none exceeds it, and one attains it. */
  lemma {:induction false} MaxOverIsMaximum(rules: Rules, h: seq<Move>, d: nat, ms: seq<Move>, n: nat)
    requires n <= |ms|
    ensures forall i :: 0 <= i < n ==> Minimax(rules, h + [ms[i]], d) <= MaxOver(rules, h, d, ms, n)
    ensures n > 0 ==> exists i :: 0 <= i < n && MaxOver(rules, h, d, ms, n) == Minimax(rules, h + [ms[i]], d)
  {
    if n > 0 {
      MaxOverIsMaximum(rules, h, d, ms, n - 1);
      var v, vl := MaxOver(rules, h, d, ms, n), Minimax(rules, h + [ms[n - 1]], d);
      if n == 1 {
        assert MaxOver(rules, h, d, ms, 0) == NegInf;
      } else if v != vl {
        var i :| 0 <= i < n - 1 && MaxOver(rules, h, d, ms, n - 1) == Minimax(rules, h + [ms[i]], d);
        assert v == Minimax(rules, h + [ms[i]], d);
      }
    }
  }

  /** MinOver is the minimum of the moves' values: none is below it, and one attains it. */
  lemma {:induction false} MinOverIsMinimum(rules: Rules, h: seq<Move>, d: nat, ms: seq<Move>, n: nat)
    requires n <= |ms|
    ensures forall i :: 0 <= i < n ==> MinOver(rules, h, d, ms, n) <= Minimax(rules, h + [ms[i]], d)
    ensures n > 0 ==> exists i :: 0 <= i < n && MinOver(rules, h, d, ms, n) == Minimax(rules, h + [ms[i]], d)
  {
    if n > 0 {
      MinOverIsMinimum(rules, h, d, ms, n - 1);
      var v, vl := MinOver(rules, h, d, ms, n), Minimax(rules, h + [ms[n - 1]], d);
      if n == 1 {
        assert MinOver(rules, h, d, ms, 0) == PosInf;
      } else if v != vl {
        var i :| 0 <= i < n - 1 && MinOver(rules, h, d, ms, n - 1) == Minimax(rules, h + [ms[i]], d);
        assert v == Minimax(rules, h + [ms[i]], d);
      }
    }
  }

  /** With a well-formed rules engine every minimax value is finite. */
  lemma {:induction false} MinimaxIsFinite(rules: Rules, h: seq<Move>, depth: nat)
    requires WellFormed(rules)
    ensures IsFinite(Minimax(rules, h, depth))
    decreases depth, 0
  {
    if depth == 0 || rules.isGameOver(h) {
      EvaluationBounded(rules.position(h));
    } else {
      var ms := rules.legalMoves(h);
      assert ms != [];
      if rules.position(h).turn == White {
        MaxOverIsFinite(rules, h, depth - 1, ms, |ms|);
      } else {
        MinOverIsFinite(rules, h, depth - 1, ms, |ms|);
      }
    }
  }

  lemma {:induction false} MaxOverIsFinite(rules: Rules, h: seq<Move>, d: nat, ms: seq<Move>, n: nat)
    requires WellFormed(rules) && 0 < n <= |ms|
    ensures IsFinite(MaxOver(rules, h, d, ms, n))
    decreases d, n
  {
    MinimaxIsFinite(rules, h + [ms[n - 1]], d);
    if n > 1 {
      MaxOverIsFinite(rules, h, d, ms, n - 1);
    }
  }

  lemma {:induction false} MinOverIsFinite(rules: Rules, h: seq<Move>, d: nat, ms: seq<Move>, n: nat)
    requires WellFormed(rules) && 0 < n <= |ms|
    ensures IsFinite(MinOver(rules, h, d, ms, n))
    decreases d, n
  {
    MinimaxIsFinite(rules, h + [ms[n - 1]], d);
    if n > 1 {
      MinOverIsFinite(rules, h, d, ms, n - 1);
    }
  }

  // ---------------------------------------------------------------------------
  // What a pruned search promises

  /**
   * The fail-soft relation between a pruned result r, searched in the window
   * (alpha, beta), and the true value v: a result at or below alpha is an upper
   * bound on v, a result at or above beta a lower bound, and a result inside
   * the window is exact.
   */
  predicate FailSoft(r: ExtInt, alpha: ExtInt, beta: ExtInt, v: ExtInt) {
    && (r <= alpha ==> v <= r)
    && (alpha < r < beta ==> r == v)
    && (beta <= r ==> r <= v)
  }

  /**
   * Inside the window the pruned result is the true value; a true value at or
   * below alpha gives a result at or below alpha, one at or above beta a
   * result at or above beta.
   */
  lemma FailSoftWindow(r: ExtInt, alpha: ExtInt, beta: ExtInt, v: ExtInt)
    requires alpha < beta && FailSoft(r, alpha, beta, v)
    ensures alpha < v < beta ==> r == v
    ensures v <= alpha ==> r <= alpha
    ensures beta <= v ==> beta <= r
  {
  }

  /** In the full window the pruned result is the true value. */
  lemma FailSoftFullWindow(r: ExtInt, v: ExtInt)
    requires NegInf <= v <= PosInf && FailSoft(r, NegInf, PosInf, v)
    ensures r == v
  {
  }

  /** How far a maximising loop has got: its running maximum m against the true maximum v so far. */
  predicate MaxProgress(m: ExtInt, alpha: ExtInt, v: ExtInt) {
    (m <= alpha ==> v <= m) && (alpha < m ==> m == v)
  }

  /** How far a minimising loop has got: its running minimum m against the true minimum v so far. */
  predicate MinProgress(m: ExtInt, beta: ExtInt, v: ExtInt) {
    (beta <= m ==> m <= v) && (m < beta ==> m == v)
  }

  /**
   * One child of a maximising node, searched in the window (max(alpha, m), beta)
   * where m is the running maximum and v the true maximum so far: either the
   * running maximum keeps tracking the true maximum, or the node is cut off
   * with a result that is a lower bound on the node's value vAll.
   */
  lemma MaxNodeStep(alpha: ExtInt, beta: ExtInt, m: ExtInt, v: ExtInt, e: ExtInt, ve: ExtInt, vAll: ExtInt)
    requires alpha < beta && Max(alpha, m) < beta && MaxProgress(m, alpha, v)
    requires FailSoft(e, Max(alpha, m), beta, ve) && ve <= vAll
    ensures Max(alpha, Max(m, e)) < beta ==> MaxProgress(Max(m, e), alpha, Max(v, ve))
    ensures beta <= Max(alpha, Max(m, e)) ==> FailSoft(Max(m, e), alpha, beta, vAll)
  {
  }

  /**
   * One child of a minimising node, searched in the window (alpha, min(beta, m))
   * where m is the running minimum and v the true minimum so far: either the
   * running minimum keeps tracking the true minimum, or the node is cut off
   * with a result that is an upper bound on the node's value vAll.
   */
  lemma MinNodeStep(alpha: ExtInt, beta: ExtInt, m: ExtInt, v: ExtInt, e: ExtInt, ve: ExtInt, vAll: ExtInt)
    requires alpha < beta && alpha < Min(beta, m) && MinProgress(m, beta, v)
    requires FailSoft(e, alpha, Min(beta, m), ve) && vAll <= ve
    ensures alpha < Min(beta, Min(m, e)) ==> MinProgress(Min(m, e), beta, Min(v, ve))
    ensures Min(beta, Min(m, e)) <= alpha ==> FailSoft(Min(m, e), alpha, beta, vAll)
  {
  }

  /** No move's value exceeds the maximum over all the moves. */
  lemma MaxOverBound(rules: Rules, h: seq<Move>, d: nat, ms: seq<Move>, i: nat)
    requires i < |ms|
    ensures Minimax(rules, h + [ms[i]], d) <= MaxOver(rules, h, d, ms, |ms|)
  {
    MaxOverIsMaximum(rules, h, d, ms, |ms|);
  }

  /** No move's value is below the minimum over all the moves. */
  lemma MinOverBound(rules: Rules, h: seq<Move>, d: nat, ms: seq<Move>, i: nat)
    requires i < |ms|
    ensures MinOver(rules, h, d, ms, |ms|) <= Minimax(rules, h + [ms[i]], d)
  {
    MinOverIsMinimum(rules, h, d, ms, |ms|);
  }

  /**
   * The i-th child of a maximising node over the moves ms, in the terms of the
   * loop that searches them: MaxNodeStep with the true values supplied.
   */
  lemma MaxNodeChild(rules: Rules, h: seq<Move>, d: nat, ms: seq<Move>, i: nat, alpha: ExtInt, beta: ExtInt, m: ExtInt, e: ExtInt)
    requires i < |ms| && alpha < beta && Max(alpha, m) < beta
    requires MaxProgress(m, alpha, MaxOver(rules, h, d, ms, i))
    requires FailSoft(e, Max(alpha, m), beta, Minimax(rules, h + [ms[i]], d))
    ensures Max(alpha, Max(m, e)) < beta ==> MaxProgress(Max(m, e), alpha, MaxOver(rules, h, d, ms, i + 1))
    ensures beta <= Max(alpha, Max(m, e)) ==> FailSoft(Max(m, e), alpha, beta, MaxOver(rules, h, d, ms, |ms|))
  {
    MaxOverBound(rules, h, d, ms, i);
    MaxNodeStep(alpha, beta, m, MaxOver(rules, h, d, ms, i), e, Minimax(rules, h + [ms[i]], d), MaxOver(rules, h, d, ms, |ms|));
  }

  /**
   * The i-th child of a minimising node over the moves ms, in the terms of the
   * loop that searches them: MinNodeStep with the true values supplied.
   */
  lemma MinNodeChild(rules: Rules, h: seq<Move>, d: nat, ms: seq<Move>, i: nat, alpha: ExtInt, beta: ExtInt, m: ExtInt, e: ExtInt)
    requires i < |ms| && alpha < beta && alpha < Min(beta, m)
    requires MinProgress(m, beta, MinOver(rules, h, d, ms, i))
    requires FailSoft(e, alpha, Min(beta, m), Minimax(rules, h + [ms[i]], d))
    ensures alpha < Min(beta, Min(m, e)) ==> MinProgress(Min(m, e), beta, MinOver(rules, h, d, ms, i + 1))
    ensures Min(beta, Min(m, e)) <= alpha ==> FailSoft(Min(m, e), alpha, beta, MinOver(rules, h, d, ms, |ms|))
  {
    MinOverBound(rules, h, d, ms, i);
    MinNodeStep(alpha, beta, m, MinOver(rules, h, d, ms, i), e, Minimax(rules, h + [ms[i]], d), MinOver(rules, h, d, ms, |ms|));
  }

  /** The first of the moves ms from h whose value is the best value v. */
  ghost predicate IsFirstBest(rules: Rules, h: seq<Move>, d: nat, ms: seq<Move>, i: int, v: ExtInt) {
    && 0 <= i < |ms|
    && Minimax(rules, h + [ms[i]], d) == v
    && forall j :: 0 <= j < i ==> Minimax(rules, h + [ms[j]], d) != v
  }

  /**
   * One move at a maximising root searched in the window (best, plus infinity),
   * where best is the best value so far: a result above best is the move's
   * true value, and a result at or below it means the move does not improve
   * on best.
   */
  lemma RootMaxStep(best: ExtInt, r: ExtInt, ve: ExtInt)
    requires NegInf <= best < PosInf && NegInf <= ve <= PosInf
    requires FailSoft(r, best, PosInf, ve)
    ensures best < r ==> r == ve
    ensures r <= best ==> Max(best, ve) == best
  {
  }

  /**
   * One move at a minimising root searched in the window (minus infinity, best):
   * a result below best is the move's true value, and a result at or above it
   * means the move does not improve on best.
   */
  lemma RootMinStep(best: ExtInt, r: ExtInt, ve: ExtInt)
    requires NegInf < best <= PosInf && NegInf <= ve <= PosInf
    requires FailSoft(r, NegInf, best, ve)
    ensures r < best ==> r == ve
    ensures best <= r ==> Min(best, ve) == best
  {
  }

  /** A move whose value beats every earlier move's is the first of its value. */
  lemma NewMaxIsFirst(rules: Rules, h: seq<Move>, d: nat, ms: seq<Move>, i: nat)
    requires i < |ms| && MaxOver(rules, h, d, ms, i) < Minimax(rules, h + [ms[i]], d)
    ensures IsFirstBest(rules, h, d, ms, i, Minimax(rules, h + [ms[i]], d))
  {
    MaxOverIsMaximum(rules, h, d, ms, i);
  }

  /** A move whose value is below every earlier move's is the first of its value. */
  lemma NewMinIsFirst(rules: Rules, h: seq<Move>, d: nat, ms: seq<Move>, i: nat)
    requires i < |ms| && Minimax(rules, h + [ms[i]], d) < MinOver(rules, h, d, ms, i)
    ensures IsFirstBest(rules, h, d, ms, i, Minimax(rules, h + [ms[i]], d))
  {
    MinOverIsMinimum(rules, h, d, ms, i);
  }

  // ---------------------------------------------------------------------------
  // The board and the search over it

  /** The shared board: the rules engine's view of the game plus the stack of moves played. */
  class Board {
    const rules: Rules
    var moveStack: seq<Move>

    constructor (rules: Rules, moveStack: seq<Move>)
      ensures this.rules == rules && this.moveStack == moveStack
    {
      this.rules := rules;
      this.moveStack := moveStack;
    }

    function LegalMoves(): seq<Move>
      reads this
    {
      rules.legalMoves(moveStack)
    }

    predicate IsGameOver()
      reads this
    {
      rules.isGameOver(moveStack)
    }

    function CurrentPosition(): Position
      reads this
    {
      rules.position(moveStack)
    }

    method Push(m: Move)
      modifies this
      ensures moveStack == old(moveStack) + [m]
    {
      moveStack := moveStack + [m];
    }

    /** Takes back the last move played, which is returned. */
    method Pop() returns (m: Move)
      requires moveStack != []
      modifies this
      ensures moveStack == old(moveStack)[..|old(moveStack)| - 1]
      ensures m == old(moveStack)[|old(moveStack)| - 1]
    {
      m := moveStack[|moveStack| - 1];
      moveStack := moveStack[..|moveStack| - 1];
    }

    /**
     * Fail-soft alpha-beta: the value of the current position depth plies deep,
     * within the window (alpha, beta) as FailSoft states; the board is as it was.
     */
    method AlphaBeta(depth: nat, alpha: ExtInt, beta: ExtInt) returns (value: ExtInt)
      requires NegInf <= alpha && beta <= PosInf
      modifies this
      decreases depth, 2
      ensures moveStack == old(moveStack)
      ensures depth == 0 || rules.isGameOver(moveStack) ==> value == Evaluate(rules.position(moveStack))
      ensures alpha < beta ==> FailSoft(value, alpha, beta, Minimax(rules, moveStack, depth))
      ensures alpha == NegInf && beta == PosInf ==> value == Minimax(rules, moveStack, depth)
      ensures WellFormed(rules) ==> IsFinite(value)
    {
      if depth == 0 || IsGameOver() {
        var score := EvaluateBoard(CurrentPosition());
        EvaluationBounded(CurrentPosition());
        return score;
      }
      assert WellFormed(rules) ==> LegalMoves() != [];
      if CurrentPosition().turn == White {
        value := MaxNode(depth, alpha, beta);
      } else {
        value := MinNode(depth, alpha, beta);
      }
    }

    /** The maximising side of AlphaBeta: White to move, the position not over. */
    method MaxNode(depth: nat, alpha: ExtInt, beta: ExtInt) returns (value: ExtInt)
      requires depth > 0 && NegInf <= alpha && beta <= PosInf
      modifies this
      decreases depth, 1
      ensures moveStack == old(moveStack)
      ensures alpha < beta ==>
                FailSoft(value, alpha, beta, MaxOver(rules, moveStack, depth - 1, rules.legalMoves(moveStack), |rules.legalMoves(moveStack)|))
      ensures WellFormed(rules) && rules.legalMoves(moveStack) != [] ==> IsFinite(value)
    {
      ghost var h := moveStack;
      var moves := LegalMoves();
      var maxValue := NegInf;
      var a := alpha;
      for i := 0 to |moves|
        invariant moveStack == h
        invariant a == Max(alpha, maxValue)
        invariant alpha < beta ==> a < beta && MaxProgress(maxValue, alpha, MaxOver(rules, h, depth - 1, moves, i))
        invariant i == 0 ==> maxValue == NegInf
        invariant WellFormed(rules) && i > 0 ==> IsFinite(maxValue)
      {
        var eval := SearchMove(moves[i], depth, a, beta);
        MaxAssociative(alpha, maxValue, eval);
        if alpha < beta {
          MaxNodeChild(rules, h, depth - 1, moves, i, alpha, beta, maxValue, eval);
        }
        maxValue := Max(maxValue, eval);
        a := Max(a, eval);
        if beta <= a {
          break;  // beta cutoff
        }
      }
      value := maxValue;
    }

    /** The minimising side of AlphaBeta: Black to move, the position not over. */
    method MinNode(depth: nat, alpha: ExtInt, beta: ExtInt) returns (value: ExtInt)
      requires depth > 0 && NegInf <= alpha && beta <= PosInf
      modifies this
      decreases depth, 1
      ensures moveStack == old(moveStack)
      ensures alpha < beta ==>
                FailSoft(value, alpha, beta, MinOver(rules, moveStack, depth - 1, rules.legalMoves(moveStack), |rules.legalMoves(moveStack)|))
      ensures WellFormed(rules) && rules.legalMoves(moveStack) != [] ==> IsFinite(value)
    {
      ghost var h := moveStack;
      var moves := LegalMoves();
      var minValue := PosInf;
      var b := beta;
      for i := 0 to |moves|
        invariant moveStack == h
        invariant b == Min(beta, minValue)
        invariant alpha < beta ==> alpha < b && MinProgress(minValue, beta, MinOver(rules, h, depth - 1, moves, i))
        invariant i == 0 ==> minValue == PosInf
        invariant WellFormed(rules) && i > 0 ==> IsFinite(minValue)
      {
        var eval := SearchMove(moves[i], depth, alpha, b);
        MinAssociative(beta, minValue, eval);
        if alpha < beta {
          MinNodeChild(rules, h, depth - 1, moves, i, alpha, beta, minValue, eval);
        }
        minValue := Min(minValue, eval);
        b := Min(b, eval);
        if b <= alpha {
          break;  // alpha cutoff
        }
      }
      value := minValue;
    }

    /**
     * One move tried from the current position: played, searched depth - 1
     * plies deep in the window (alpha, beta), and taken back.
     */
    method SearchMove(m: Move, depth: nat, alpha: ExtInt, beta: ExtInt) returns (value: ExtInt)
      requires depth > 0 && NegInf <= alpha && beta <= PosInf
      modifies this
      decreases depth, 0
      ensures moveStack == old(moveStack)
      ensures alpha < beta ==> FailSoft(value, alpha, beta, Minimax(rules, moveStack + [m], depth - 1))
      ensures WellFormed(rules) ==> IsFinite(value)
    {
      ghost var h := moveStack;
      Push(m);
      value := AlphaBeta(depth - 1, alpha, beta);
      var _ := Pop();
      assert (h + [m])[..|h|] == h;
    }

    /**
     * The move to play: the first legal move, in the rules engine's order, with
     * the best value for the side to move, each move searched depth - 1 plies
     * deep. There is a move exactly when the position has a legal move.
     */
    method GetBestMove(depth: nat, alpha: ExtInt, beta: ExtInt) returns (bestMove: Option<Move>)
      requires depth >= 1 && WellFormed(rules)
      requires NegInf <= alpha && beta <= PosInf
      modifies this
      ensures moveStack == old(moveStack)
      ensures bestMove.None? <==> rules.legalMoves(moveStack) == []
      ensures bestMove.Some? ==> bestMove.value in rules.legalMoves(moveStack)
      ensures bestMove.Some? && alpha == NegInf && beta == PosInf ==>
                exists i :: IsFirstBest(rules, moveStack, depth - 1, rules.legalMoves(moveStack), i,
                                        ChildrenValue(rules, moveStack, depth - 1))
                         && rules.legalMoves(moveStack)[i] == bestMove.value
    {
      if CurrentPosition().turn == White {
        bestMove := MaxRoot(depth, alpha, beta);
      } else {
        bestMove := MinRoot(depth, alpha, beta);
      }
      if bestMove.None? && LegalMoves() != [] {
        // The source falls back to a random legal move here; the root loops
        // always record a move when there is one, so this branch is never taken.
        assert false;
      }
    }

    /** The maximising side of GetBestMove: the first move of the largest value. */
    method MaxRoot(depth: nat, alpha: ExtInt, beta: ExtInt) returns (bestMove: Option<Move>)
      requires depth >= 1 && WellFormed(rules)
      requires NegInf <= alpha && beta <= PosInf
      modifies this
      ensures moveStack == old(moveStack)
      ensures bestMove.None? <==> rules.legalMoves(moveStack) == []
      ensures bestMove.Some? ==> bestMove.value in rules.legalMoves(moveStack)
      ensures bestMove.Some? && alpha == NegInf && beta == PosInf ==>
                exists i :: IsFirstBest(rules, moveStack, depth - 1, rules.legalMoves(moveStack), i,
                                        MaxOver(rules, moveStack, depth - 1, rules.legalMoves(moveStack), |rules.legalMoves(moveStack)|))
                         && rules.legalMoves(moveStack)[i] == bestMove.value
    {
      ghost var h := moveStack;
      ghost var d := depth - 1;
      ghost var full := alpha == NegInf && beta == PosInf;
      var moves := LegalMoves();
      bestMove := None;
      ghost var bi := 0;
      var bestValue := NegInf;
      var a := alpha;
      for i := 0 to |moves|
        invariant moveStack == h
        invariant a == Max(alpha, bestValue)
        invariant i == 0 <==> bestMove.None?
        invariant i > 0 ==> IsFinite(bestValue) && bi < i && moves[bi] == bestMove.value
        invariant i == 0 ==> bestValue == NegInf
        invariant full ==> bestValue == MaxOver(rules, h, d, moves, i)
        invariant full && i > 0 ==> IsFirstBest(rules, h, d, moves, bi, bestValue)
      {
        var moveValue := SearchMove(moves[i], depth, a, beta);
        ghost var ve := Minimax(rules, h + [moves[i]], d);
        if full {
          RootMaxStep(bestValue, moveValue, ve);
        }
        if moveValue > bestValue {
          if full {
            NewMaxIsFirst(rules, h, d, moves, i);
          }
          bestValue := moveValue;
          bestMove := Some(moves[i]);
          bi := i;
        }
        a := Max(a, bestValue);
      }
    }

    /** The minimising side of GetBestMove: the first move of the smallest value. */
    method MinRoot(depth: nat, alpha: ExtInt, beta: ExtInt) returns (bestMove: Option<Move>)
      requires depth >= 1 && WellFormed(rules)
      requires NegInf <= alpha && beta <= PosInf
      modifies this
      ensures moveStack == old(moveStack)
      ensures bestMove.None? <==> rules.legalMoves(moveStack) == []
      ensures bestMove.Some? ==> bestMove.value in rules.legalMoves(moveStack)
      ensures bestMove.Some? && alpha == NegInf && beta == PosInf ==>
                exists i :: IsFirstBest(rules, moveStack, depth - 1, rules.legalMoves(moveStack), i,
                                        MinOver(rules, moveStack, depth - 1, rules.legalMoves(moveStack), |rules.legalMoves(moveStack)|))
                         && rules.legalMoves(moveStack)[i] == bestMove.value
    {
      ghost var h := moveStack;
      ghost var d := depth - 1;
      ghost var full := alpha == NegInf && beta == PosInf;
      var moves := LegalMoves();
      bestMove := None;
      ghost var bi := 0;
      var bestValue := PosInf;
      var b := beta;
      for i := 0 to |moves|
        invariant moveStack == h
        invariant b == Min(beta, bestValue)
        invariant i == 0 <==> bestMove.None?
        invariant i > 0 ==> IsFinite(bestValue) && bi < i && moves[bi] == bestMove.value
        invariant i == 0 ==> bestValue == PosInf
        invariant full ==> bestValue == MinOver(rules, h, d, moves, i)
        invariant full && i > 0 ==> IsFirstBest(rules, h, d, moves, bi, bestValue)
      {
        var moveValue := SearchMove(moves[i], depth, alpha, b);
        ghost var ve := Minimax(rules, h + [moves[i]], d);
        if full {
          RootMinStep(bestValue, moveValue, ve);
        }
        if moveValue < bestValue {
          if full {
            NewMinIsFirst(rules, h, d, moves, i);
          }
          bestValue := moveValue;
          bestMove := Some(moves[i]);
          bi := i;
        }
        b := Min(b, bestValue);
      }
    }
  }
}
