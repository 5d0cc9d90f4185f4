# Alpha-beta chess AI, modelled in Dafny

This project models the computer player of a small chess game (`Q1.py`). The player has two parts.

- **The static evaluator** (`evaluate_board`). It scores a position from White's point of view.
  - Checkmate scores -10000 when White is to move and +10000 when Black is to move.
  - Stalemate or insufficient material scores 0.
  - Any other position scores the weighted material difference (100/320/330/500/900/20000), plus ±10 per piece on E4, D4, E5 and D5, plus ±5 per knight or bishop off its home rank.
- **The search.**
  - `alpha_beta` is a fail-soft minimax with alpha-beta pruning over one shared board, which it changes with `push` and restores with `pop`.
  - `get_best_move` runs it once for each root move and keeps the first move that strictly improves the best value.

The project has four files.

- `options.dfy`: an `Option` type.
- `extended_int.dfy`: the search's infinities. They are the integers -10^9 and 10^9, which lie far outside every score the evaluator can produce.
- `evaluation.dfy`: the evaluator.
  - `Evaluate` is the specification: a per-square sum plus the centre term.
  - `EvaluateBoard` and its three loop methods follow the source's per-kind loops.
  - Lemmas relate the two and prove the listed properties of the score.
- `search.dfy`: the search.
  - The rules engine is a record of functions of the move history (`Rules`).
  - `Minimax` is the unpruned specification.
  - `Board` is a class holding the move stack, with `AlphaBeta` and `GetBestMove` as methods proved against `Minimax`.

## Model

| member | source | states |
|---|---|---|
| Evaluation.TerminalPrecedence | Q1.py:55-60 | Checkmate is tested first: -10000 with White to move, +10000 with Black to move. Otherwise stalemate or insufficient material gives exactly 0, whatever the pieces. |
| Evaluation.NonTerminalScore | Q1.py:62-109 | A non-terminal position scores Σ weight·(White count − Black count), plus the centre term, plus 5·(developed White minors) − 5·(developed Black minors). Developed means off rank 0 for White and off rank 7 for Black. |
| Evaluation.CentreTerm | Q1.py:81-89 | The centre term lies in [−40, 40]. |
| Evaluation.CentreTermSquares | Q1.py:82-89 | The centre term is the sum of ±10 for the pieces on E4, D4, E5 and D5, by colour. |
| Evaluation.SourceFormOfScore | Q1.py:72-104 | Summing each square's material and development equals the source's kind-by-kind totals. |
| Evaluation.PiecesAreItsSquares | Q1.py:94-100 | A piece list holds exactly the squares with that piece, each once, in increasing order. |
| Evaluation.EvaluationBounded | Q1.py:63-107 | Every score lies within ±(64·20005 + 40), far inside the ±10^9 used for the infinities. |
| Evaluation.MirrorNegatesEvaluation | Q1.py:56-104 | Reflecting the ranks, swapping all colours and the side to move negates the score. |
| Evaluation.MirrorNegatesCentre | Q1.py:82-89 | The central squares are closed under rank reflection, so mirroring negates the centre term. |
| Evaluation.MirrorNegatesSquareSum | Q1.py:72-104 | Mirroring negates the summed material and development. The `> 0` and `< 7` home-rank tests mirror each other. |
| Evaluation.MirrorSquare | Q1.py:96-103 | The reflected square has rank 7 − r on the same file. |
| Evaluation.EvaluateBoard | Q1.py:50-109 | The evaluator's result equals `Evaluate`, including both terminal early returns. |
| Evaluation.MaterialScore | Q1.py:72-76 | The material loop over the six kinds yields Σ weight·(White count − Black count). |
| Evaluation.CentralControl | Q1.py:81-89 | The central-control loop yields the centre term. |
| Evaluation.DevelopmentBonus | Q1.py:91-104 | The nested development loops yield 5·(White minors off rank 0) − 5·(Black minors off rank 7). |
| ExtendedInt.Max | Q1.py:126 | `max` is an upper bound of both arguments and equals one of them. |
| ExtendedInt.Min | Q1.py:137 | `min` is a lower bound of both arguments and equals one of them. |
| Search.MaxOverIsMaximum | Q1.py:120-130 | The maximising value over the first n moves is ≥ every one of their minimax values and is attained by one of them. |
| Search.MinOverIsMinimum | Q1.py:131-141 | The minimising value over the first n moves is ≤ every one of their minimax values and is attained by one of them. |
| Search.MinimaxIsFinite | Q1.py:117-141 | When a position without legal moves is always over, every minimax value lies strictly between the infinities. |
| Search.FailSoftWindow | Q1.py:112-141 | From the fail-soft relation: a true value inside (alpha, beta) is returned exactly, one ≤ alpha gives a result ≤ alpha, and one ≥ beta gives a result ≥ beta. |
| Search.FailSoftFullWindow | Q1.py:144 | In the default window (−∞, +∞) the fail-soft result is the true value. |
| Search.MaxNodeStep | Q1.py:126-129 | One child at a maximising node either keeps the running maximum tracking the true maximum or causes a cutoff whose result is a lower bound on the node's value. |
| Search.MinNodeStep | Q1.py:137-140 | Symmetric to MaxNodeStep for a minimising node, with an upper bound at the cutoff. |
| Search.MaxNodeChild | Q1.py:122-129 | MaxNodeStep for the i-th child, stated in terms of the maximising value over the first i and i + 1 moves. |
| Search.MinNodeChild | Q1.py:133-140 | MinNodeStep for the i-th child, stated in terms of the minimising value over the first i and i + 1 moves. |
| Search.MaxOverBound | Q1.py:122-129 | No child's value exceeds the maximising value over all the moves. |
| Search.MinOverBound | Q1.py:133-140 | No child's value is below the minimising value over all the moves. |
| Search.RootMaxStep | Q1.py:152-161 | A root result searched in (best, +∞) that beats best is that move's true value. A result at or below best means the move cannot beat best. |
| Search.RootMinStep | Q1.py:164-173 | Symmetric to RootMaxStep for Black, in the window (−∞, best). |
| Search.NewMaxIsFirst | Q1.py:157-159 | A move that strictly beats all earlier moves is the first move with its value. |
| Search.NewMinIsFirst | Q1.py:169-171 | A move strictly below all earlier moves is the first move with its value. |
| Search.Board.Push | Q1.py:123 | Pushing appends the move to the move stack. |
| Search.Board.Pop | Q1.py:125 | Popping removes and returns the last move on the stack. |
| Search.Board.AlphaBeta | Q1.py:112-141 | Depth 0 or game over returns exactly the evaluation. Otherwise, for alpha < beta, the result is fail-soft against unpruned minimax. In the full window it equals minimax. The result is finite for well-formed rules. The move stack is as before the call. |
| Search.Board.MaxNode | Q1.py:120-130 | The White loop with its beta cutoff is fail-soft against the maximum of the children's minimax values. The move stack is restored. |
| Search.Board.MinNode | Q1.py:131-141 | The Black loop with its alpha cutoff is fail-soft against the minimum of the children's minimax values. The move stack is restored. |
| Search.Board.SearchMove | Q1.py:123-125 | Push, search at depth − 1, pop: the result is fail-soft against the child's minimax value, and the stack is restored. |
| Search.Board.GetBestMove | Q1.py:144-179 | With depth ≥ 1 the stack is restored. There is no move exactly when there are no legal moves. A returned move is legal. In the default window it is the first legal move whose minimax value is the best value for the side to move. The random fallback is never taken. |
| Search.Board.MaxRoot | Q1.py:150-161 | White's root loop returns the first move of the largest minimax value (default window). It returns no move exactly when the move list is empty. |
| Search.Board.MinRoot | Q1.py:162-173 | Black's root loop returns the first move of the smallest minimax value (default window). It returns no move exactly when the move list is empty. |

## Left out

- **The rules engine.** python-chess move generation and legality, check, checkmate, stalemate and insufficient-material detection, and game-over detection are not part of this model. The search sees them as the functions of the move history in `Rules`. The evaluator sees the three terminal verdicts as fields of `Position`. `WellFormed` adds the one assumption the search needs: a position with no legal moves is over. `Push` and `Pop` are LIFO operations on the move stack.
- **Game-over verdicts the evaluator ignores.** `isGameOver` is kept separate from the evaluator's flags. Game ends such as repetition or the 75-move rule stop the search, but the evaluator scores them on material. An empty move list at a position that is not over is allowed: the search then returns the sentinel, as the source does.
- **Floats.** The `float('-inf')`/`float('inf')` bounds become the integers −10^9 and 10^9. `EvaluationBounded` shows that no score comes near them, so they order the same way as the float infinities. The search methods require `NegInf <= alpha` and `beta <= PosInf`, which the default window meets.
- Search.Board.AlphaBeta: the fail-soft relation is stated only for `alpha < beta`. With an empty window the result is not related to minimax, and the source makes no promise for that case.
- Search.Board.GetBestMove: the first-best property is stated only for the default window (−∞, +∞), which is the only window the game uses. Depth 0 is excluded by `depth >= 1`: the source would call `alpha_beta` at depth −1, never reach depth 0 and search to the end of the game.
- **The random fallback** (`random.choice`, Q1.py:175-177) is not modelled as randomness. Under `WellFormed` it is proved unreachable: the branch stands as `assert false`.
- **Accumulation order in the evaluator.** The source adds the development bonus into the positional score that already holds the centre bonus. Here each of the three sums is a separate method, and `EvaluateBoard` adds them in the source's order.
- **The pygame interface.** Image loading, `draw_board`, `get_square_from_pos`, the `main` loop with its colour prompt, the event handling and the clock are presentation and I/O. `chess_engine.py` (drawing, mouse input, a timed loop and a random-move player) is not part of this model.
