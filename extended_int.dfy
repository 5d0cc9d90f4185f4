/**
 * The numbers the search works with: the evaluator's integer scores and the
 * two infinities the search starts from. The infinities are the integers
 * -Infinity and Infinity, which lie far beyond every score the evaluator can
 * give (Evaluation.EvaluationBounded), so they compare with every score as
 * the true infinities do. The running maximum starts at minus infinity, the
 * running minimum at plus infinity, and the default window is
 * (minus infinity, plus infinity).
 */
module ExtendedInt {

  const Infinity: int := 1_000_000_000

  /** A score or a window bound; the search keeps its bounds between the two infinities. */
  type ExtInt = int

  const NegInf: ExtInt := -Infinity
  const PosInf: ExtInt := Infinity

  /** Neither of the two infinities. */
  predicate IsFinite(x: ExtInt) {
    NegInf < x < PosInf
  }

  /** The larger of the two, as `max(a, b)` picks it: a unless b is larger. */
  function Max(a: ExtInt, b: ExtInt): (m: ExtInt)
    ensures a <= m && b <= m
    ensures m == a || m == b
  {
    if a < b then b else a
  }

  /** The smaller of the two, as `min(a, b)` picks it: a unless b is smaller. */
  function Min(a: ExtInt, b: ExtInt): (m: ExtInt)
    ensures m <= a && m <= b
    ensures m == a || m == b
  {
    if b < a then b else a
  }

  lemma MaxAssociative(a: ExtInt, b: ExtInt, c: ExtInt)
    ensures Max(Max(a, b), c) == Max(a, Max(b, c))
  {
  }

  lemma MinAssociative(a: ExtInt, b: ExtInt, c: ExtInt)
    ensures Min(Min(a, b), c) == Min(a, Min(b, c))
  {
  }
}
