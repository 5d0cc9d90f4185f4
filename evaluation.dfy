/**
 * The static evaluator of the chess AI. A position is scored from White's
 * point of view: positive favours White, negative favours Black. Terminal
 * positions come first (checkmate, then stalemate or insufficient material);
 * every other position scores its material difference plus a bonus for
 * occupying the four central squares plus a bonus for minor pieces that have
 * left their home rank.
 *
 * The rules engine decides checkmate, stalemate and insufficient material;
 * here those verdicts are fields of the position, next to the side to move
 * and the contents of the 64 squares.
 */
module Evaluation {
  import opened Options

  datatype Color = White | Black
  datatype Kind = Pawn | Knight | Bishop | Rook | Queen | King
  datatype Piece = Piece(kind: Kind, color: Color)

  /**
   * The contents of the 64 squares, indexed as the rules engine numbers them:
   * square = 8 * rank + file, so A1 is 0, H1 is 7 and H8 is 63.
   */
  type Placement = s: seq<Option<Piece>> | |s| == 64 witness seq(64, _ => None)

  datatype Position = Position(
    placement: Placement,
    turn: Color,
    isCheckmate: bool,
    isStalemate: bool,
    isInsufficientMaterial: bool)

  const CheckmateScore: int := 10000

  const D4: nat := 27
  const E4: nat := 28
  const D5: nat := 35
  const E5: nat := 36
  /** The central squares in the order the evaluator visits them. */
  const CentralSquares: seq<nat> := [E4, D4, E5, D5]

  /** The piece kinds in the order of the evaluator's weight table. */
  const AllKinds: seq<Kind> := [Pawn, Knight, Bishop, Rook, Queen, King]
  const MinorKinds: seq<Kind> := [Knight, Bishop]

  function PieceValue(k: Kind): int {
    match k
    case Pawn => 100
    case Knight => 320
    case Bishop => 330
    case Rook => 500
    case Queen => 900
    case King => 20000
  }

  /** +1 for White, -1 for Black: the direction in which a colour pushes the score. */
  function Sign(c: Color): int {
    if c == White then 1 else -1
  }

  function Opponent(c: Color): Color {
    if c == White then Black else White
  }

  function SquareRank(sq: nat): nat {
    sq / 8
  }

  function SquareFile(sq: nat): nat {
    sq % 8
  }

  lemma SquareOf(rank: nat, file: nat)
    requires file < 8
    ensures SquareRank(8 * rank + file) == rank && SquareFile(8 * rank + file) == file
  {
  }

  /** The square reflected across the middle of the board (rank r goes to rank 7 - r). */
  function MirrorSquare(sq: nat): (m: nat)
    requires sq < 64
    ensures m < 64
    ensures SquareRank(m) == 7 - SquareRank(sq) && SquareFile(m) == SquareFile(sq)
  {
    SquareOf(7 - SquareRank(sq), SquareFile(sq));
    8 * (7 - SquareRank(sq)) + SquareFile(sq)
  }

  // ---------------------------------------------------------------------------
  // The rules engine's piece lists

  /**
   * The squares that hold a piece of kind k and colour c, in increasing order:
   * the rules engine's square set of those pieces, which the evaluator both
   * counts and iterates over.
   */
  function Pieces(b: seq<Option<Piece>>, k: Kind, c: Color): seq<nat> {
    if b == [] then []
    else
      Pieces(b[..|b| - 1], k, c) + (if b[|b| - 1] == Some(Piece(k, c)) then [|b| - 1] else [])
  }

  /** The piece list holds exactly the squares of that piece, each once, in increasing order. */
  lemma {:induction false} PiecesAreItsSquares(b: seq<Option<Piece>>, k: Kind, c: Color)
    ensures forall j :: 0 <= j < |Pieces(b, k, c)| ==>
              Pieces(b, k, c)[j] < |b| && b[Pieces(b, k, c)[j]] == Some(Piece(k, c))
    ensures forall s :: 0 <= s < |b| && b[s] == Some(Piece(k, c)) ==> s in Pieces(b, k, c)
    ensures forall i, j :: 0 <= i < j < |Pieces(b, k, c)| ==> Pieces(b, k, c)[i] < Pieces(b, k, c)[j]
  {
    if b != [] {
      var b', n := b[..|b| - 1], |b| - 1;
      var ps', ps := Pieces(b', k, c), Pieces(b, k, c);
      PiecesAreItsSquares(b', k, c);
      assert forall s :: 0 <= s < n ==> b'[s] == b[s];
      if b[n] == Some(Piece(k, c)) {
        assert ps == ps' + [n];
      } else {
        assert ps == ps';
      }
    }
  }

  // ---------------------------------------------------------------------------
  // The score, square by square

  function MaterialOf(x: Option<Piece>): int {
    match x
    case None => 0
    case Some(p) => Sign(p.color) * PieceValue(p.kind)
  }

  predicate IsMinor(k: Kind) {
    k == Knight || k == Bishop
  }

  /** A White piece off rank 0, or a Black piece off rank 7. */
  predicate OffHomeRank(sq: nat, c: Color) {
    if c == White then SquareRank(sq) > 0 else SquareRank(sq) < 7
  }

  function DevelopmentOf(sq: nat, x: Option<Piece>): int {
    match x
    case None => 0
    case Some(p) => if IsMinor(p.kind) && OffHomeRank(sq, p.color) then 5 * Sign(p.color) else 0
  }

  function CentreOf(x: Option<Piece>): int {
    match x
    case None => 0
    case Some(p) => 10 * Sign(p.color)
  }

  /** What each square contributes to the score apart from the central bonus. */
  function SquareTerms(b: seq<Option<Piece>>): (r: seq<int>)
    ensures |r| == |b|
  {
    seq(|b|, i requires 0 <= i < |b| => MaterialOf(b[i]) + DevelopmentOf(i, b[i]))
  }

  function Sum(s: seq<int>): int {
    if s == [] then 0 else Sum(s[..|s| - 1]) + s[|s| - 1]
  }

  /** The central bonus collected over some squares. */
  function CentreOver(b: Placement, sqs: seq<nat>): (r: int)
    requires forall j :: 0 <= j < |sqs| ==> sqs[j] < 64
    ensures -10 * |sqs| <= r <= 10 * |sqs|
  {
    if sqs == [] then 0 else CentreOver(b, sqs[..|sqs| - 1]) + CentreOf(b[sqs[|sqs| - 1]])
  }

  function CentreTerm(b: Placement): (r: int)
    ensures -40 <= r <= 40
  {
    CentreOver(b, CentralSquares)
  }

  /** The central bonus is +10 for each White piece and -10 for each Black piece on E4, D4, E5 and D5. */
  lemma CentreTermSquares(b: Placement)
    ensures CentreTerm(b) == CentreOf(b[E4]) + CentreOf(b[D4]) + CentreOf(b[E5]) + CentreOf(b[D5])
  {
    var c := CentralSquares;
    assert c[..3] == [E4, D4, E5] && [E4, D4, E5][..2] == [E4, D4] && [E4, D4][..1] == [E4];
    assert [E4][..0] == [];
    assert CentreOver(b, [E4]) == CentreOf(b[E4]);
    assert CentreOver(b, [E4, D4]) == CentreOf(b[E4]) + CentreOf(b[D4]);
    assert CentreOver(b, [E4, D4, E5]) == CentreOf(b[E4]) + CentreOf(b[D4]) + CentreOf(b[E5]);
  }

  /** The score of a position, positive when it favours White. */
  function Evaluate(p: Position): int {
    if p.isCheckmate then
      (if p.turn == White then -CheckmateScore else CheckmateScore)
    else if p.isStalemate || p.isInsufficientMaterial then
      0
    else
      Sum(SquareTerms(p.placement)) + CentreTerm(p.placement)
  }

  /** No square contributes more than a king and a developed minor piece could. */
  const SquareBound: int := 20005

  /** No score exceeds 64 squares at their largest plus the whole central bonus. */
  const ScoreBound: int := 64 * SquareBound + 40

  lemma {:induction false} SumBounded(s: seq<int>)
    requires forall i :: 0 <= i < |s| ==> -SquareBound <= s[i] <= SquareBound
    ensures -SquareBound * |s| <= Sum(s) <= SquareBound * |s|
  {
    if s != [] {
      SumBounded(s[..|s| - 1]);
    }
  }

  /** Every score lies within ScoreBound of zero. */
  lemma EvaluationBounded(p: Position)
    ensures -ScoreBound <= Evaluate(p) <= ScoreBound
  {
    var t := SquareTerms(p.placement);
    SumBounded(t);
  }

  // ---------------------------------------------------------------------------
  // The score, kind by kind, as the evaluator accumulates it

  /** Sum over the kinds ks of weight * (White count - Black count). */
  function KindsMaterial(b: seq<Option<Piece>>, ks: seq<Kind>): int {
    if ks == [] then 0
    else
      var k := ks[|ks| - 1];
      KindsMaterial(b, ks[..|ks| - 1])
        + |Pieces(b, k, White)| * PieceValue(k)
        - |Pieces(b, k, Black)| * PieceValue(k)
  }

  /** How many of the squares sqs are off colour c's home rank. */
  function Developed(sqs: seq<nat>, c: Color): nat {
    if sqs == [] then 0
    else Developed(sqs[..|sqs| - 1], c) + (if OffHomeRank(sqs[|sqs| - 1], c) then 1 else 0)
  }

  /** Sum over the kinds ks of 5 * (developed White pieces - developed Black pieces). */
  function KindsDevelopment(b: seq<Option<Piece>>, ks: seq<Kind>): int {
    if ks == [] then 0
    else
      var k := ks[|ks| - 1];
      KindsDevelopment(b, ks[..|ks| - 1])
        + 5 * Developed(Pieces(b, k, White), White)
        - 5 * Developed(Pieces(b, k, Black), Black)
  }

  predicate Distinct(ks: seq<Kind>) {
    forall i, j :: 0 <= i < j < |ks| ==> ks[i] != ks[j]
  }

  /** The material of x if its kind is one of ks. */
  function MaterialIn(x: Option<Piece>, ks: seq<Kind>): int {
    if x.Some? && x.value.kind in ks then MaterialOf(x) else 0
  }

  /** The development bonus of x on square sq if its kind is one of ks. */
  function DevelopmentIn(sq: nat, x: Option<Piece>, ks: seq<Kind>): int {
    if x.Some? && x.value.kind in ks && OffHomeRank(sq, x.value.color) then 5 * Sign(x.value.color) else 0
  }

  /** Adding the last square to the board adds that square's material to a kind-by-kind total. */
  lemma {:induction false} KindsMaterialStep(b: seq<Option<Piece>>, ks: seq<Kind>)
    requires |b| > 0 && Distinct(ks)
    ensures KindsMaterial(b, ks) == KindsMaterial(b[..|b| - 1], ks) + MaterialIn(b[|b| - 1], ks)
  {
    if ks != [] {
      var k, ks' := ks[|ks| - 1], ks[..|ks| - 1];
      var b', x := b[..|b| - 1], b[|b| - 1];
      KindsMaterialStep(b, ks');
      var w := PieceValue(k);
      var dw := if x == Some(Piece(k, White)) then 1 else 0;
      var db := if x == Some(Piece(k, Black)) then 1 else 0;
      assert |Pieces(b, k, White)| == |Pieces(b', k, White)| + dw;
      assert |Pieces(b, k, Black)| == |Pieces(b', k, Black)| + db;
      assert (|Pieces(b', k, White)| + dw) * w == |Pieces(b', k, White)| * w + dw * w;
      assert (|Pieces(b', k, Black)| + db) * w == |Pieces(b', k, Black)| * w + db * w;
      assert k !in ks' by {
        forall j | 0 <= j < |ks'| ensures ks'[j] != k {
          assert ks'[j] == ks[j];
        }
      }
      assert x.Some? ==> (x.value.kind in ks <==> x.value.kind in ks' || x.value.kind == k);
    }
  }

  /** Adding the last square to the board adds that square's development bonus to a kind-by-kind total. */
  lemma {:induction false} KindsDevelopmentStep(b: seq<Option<Piece>>, ks: seq<Kind>)
    requires |b| > 0 && Distinct(ks)
    ensures KindsDevelopment(b, ks) == KindsDevelopment(b[..|b| - 1], ks) + DevelopmentIn(|b| - 1, b[|b| - 1], ks)
  {
    if ks != [] {
      var k, ks' := ks[|ks| - 1], ks[..|ks| - 1];
      var b', x := b[..|b| - 1], b[|b| - 1];
      KindsDevelopmentStep(b, ks');
      var sq := |b| - 1;
      forall c | true
        ensures Developed(Pieces(b, k, c), c)
             == Developed(Pieces(b', k, c), c) + (if x == Some(Piece(k, c)) && OffHomeRank(sq, c) then 1 else 0)
      {
        var extra: seq<nat> := if x == Some(Piece(k, c)) then [sq] else [];
        assert Pieces(b, k, c) == Pieces(b', k, c) + extra;
        if extra != [] {
          assert (Pieces(b', k, c) + extra)[..|Pieces(b', k, c) + extra| - 1] == Pieces(b', k, c);
        } else {
          assert Pieces(b', k, c) + extra == Pieces(b', k, c);
        }
      }
      assert k !in ks' by {
        forall j | 0 <= j < |ks'| ensures ks'[j] != k {
          assert ks'[j] == ks[j];
        }
      }
      assert x.Some? ==> (x.value.kind in ks <==> x.value.kind in ks' || x.value.kind == k);
    }
  }

  lemma {:induction false} EmptyBoardTotals(ks: seq<Kind>)
    ensures KindsMaterial([], ks) == 0 && KindsDevelopment([], ks) == 0
  {
    if ks != [] {
      EmptyBoardTotals(ks[..|ks| - 1]);
    }
  }

  /**
   * The square-by-square score and the kind-by-kind score agree: summing every
   * square's material and development bonus is the same as weighting each
   * kind's count difference and counting each side's developed minor pieces.
   */
  lemma {:induction false} SourceFormOfScore(b: seq<Option<Piece>>)
    ensures Sum(SquareTerms(b)) == KindsMaterial(b, AllKinds) + KindsDevelopment(b, MinorKinds)
  {
    if b == [] {
      EmptyBoardTotals(AllKinds);
      EmptyBoardTotals(MinorKinds);
    } else {
      var b', x, sq := b[..|b| - 1], b[|b| - 1], |b| - 1;
      SourceFormOfScore(b');
      assert SquareTerms(b)[..|b| - 1] == SquareTerms(b');
      KindsMaterialStep(b, AllKinds);
      KindsDevelopmentStep(b, MinorKinds);
      assert MaterialIn(x, AllKinds) == MaterialOf(x) by {
        if x.Some? {
          var k := x.value.kind;
          assert k in AllKinds by {
            match k
            case Pawn => assert AllKinds[0] == k;
            case Knight => assert AllKinds[1] == k;
            case Bishop => assert AllKinds[2] == k;
            case Rook => assert AllKinds[3] == k;
            case Queen => assert AllKinds[4] == k;
            case King => assert AllKinds[5] == k;
          }
        }
      }
      assert DevelopmentIn(sq, x, MinorKinds) == DevelopmentOf(sq, x) by {
        if x.Some? {
          var k := x.value.kind;
          assert k in MinorKinds <==> IsMinor(k) by {
            assert MinorKinds[0] == Knight && MinorKinds[1] == Bishop;
          }
        }
      }
    }
  }

  /**
   * A position that is not terminal scores its weighted material difference,
   * plus the central bonus, plus 5 for each developed White minor piece and
   * minus 5 for each developed Black one.
   */
  lemma NonTerminalScore(p: Position)
    requires !p.isCheckmate && !p.isStalemate && !p.isInsufficientMaterial
    ensures Evaluate(p) == KindsMaterial(p.placement, AllKinds)
                         + CentreTerm(p.placement)
                         + 5 * (Developed(Pieces(p.placement, Knight, White), White)
                                + Developed(Pieces(p.placement, Bishop, White), White))
                         - 5 * (Developed(Pieces(p.placement, Knight, Black), Black)
                                + Developed(Pieces(p.placement, Bishop, Black), Black))
  {
    var b := p.placement;
    SourceFormOfScore(b);
    assert MinorKinds[..1] == [Knight] && [Knight][..0] == [];
    assert KindsDevelopment(b, [Knight])
        == 5 * Developed(Pieces(b, Knight, White), White) - 5 * Developed(Pieces(b, Knight, Black), Black);
  }

  /**
   * Checkmate is tested before anything else and scores in favour of the side
   * that is not to move; a draw by stalemate or insufficient material scores 0,
   * whatever the pieces on the board.
   */
  lemma TerminalPrecedence(p: Position)
    ensures p.isCheckmate && p.turn == White ==> Evaluate(p) == -10000
    ensures p.isCheckmate && p.turn == Black ==> Evaluate(p) == 10000
    ensures !p.isCheckmate && (p.isStalemate || p.isInsufficientMaterial) ==> Evaluate(p) == 0
  {
  }

  // ---------------------------------------------------------------------------
  // The evaluator

  /** The evaluator: terminal verdicts first, then material plus the positional bonuses. */
  method EvaluateBoard(p: Position) returns (score: int)
    ensures score == Evaluate(p)
  {
    if p.isCheckmate {
      score := if p.turn == White then -10000 else 10000;
      return;
    }
    if p.isStalemate || p.isInsufficientMaterial {
      return 0;
    }
    var b := p.placement;
    var material := MaterialScore(b);
    var positional := CentralControl(b);
    var development := DevelopmentBonus(b);
    positional := positional + development;
    score := material + positional;
    SourceFormOfScore(b);
  }

  /** The material loop: for each kind, its weight times the White count minus the Black count. */
  method MaterialScore(b: Placement) returns (material: int)
    ensures material == KindsMaterial(b, AllKinds)
  {
    var kinds := AllKinds;
    material := 0;
    for i := 0 to |kinds|
      invariant material == KindsMaterial(b, kinds[..i])
    {
      assert kinds[..i + 1][..i] == kinds[..i];
      var w := PieceValue(kinds[i]);
      material := material + |Pieces(b, kinds[i], White)| * w;
      material := material - |Pieces(b, kinds[i], Black)| * w;
    }
    assert kinds[..|kinds|] == kinds;
  }

  /** The central-control loop: +10 for a White piece, -10 for a Black one, on each central square. */
  method CentralControl(b: Placement) returns (bonus: int)
    ensures bonus == CentreTerm(b)
  {
    bonus := 0;
    var centre := CentralSquares;
    for i := 0 to |centre|
      invariant bonus == CentreOver(b, centre[..i])
    {
      assert centre[..i + 1][..i] == centre[..i];
      var x := b[centre[i]];
      if x.Some? {
        if x.value.color == White {
          bonus := bonus + 10;
        } else {
          bonus := bonus - 10;
        }
      }
    }
    assert centre[..|centre|] == centre;
  }

  /** The development loop: +5 per White knight or bishop off rank 0, -5 per Black one off rank 7. */
  method DevelopmentBonus(b: Placement) returns (bonus: int)
    ensures bonus == KindsDevelopment(b, MinorKinds)
  {
    bonus := 0;
    var minors := MinorKinds;
    for i := 0 to |minors|
      invariant bonus == KindsDevelopment(b, minors[..i])
    {
      assert minors[..i + 1][..i] == minors[..i];
      var white := Pieces(b, minors[i], White);
      for j := 0 to |white|
        invariant bonus == KindsDevelopment(b, minors[..i]) + 5 * Developed(white[..j], White)
      {
        assert white[..j + 1][..j] == white[..j];
        var rank := SquareRank(white[j]);
        if rank > 0 {
          bonus := bonus + 5;
        }
      }
      assert white[..|white|] == white;
      var black := Pieces(b, minors[i], Black);
      for j := 0 to |black|
        invariant bonus == KindsDevelopment(b, minors[..i])
                           + 5 * Developed(white, White) - 5 * Developed(black[..j], Black)
      {
        assert black[..j + 1][..j] == black[..j];
        var rank := SquareRank(black[j]);
        if rank < 7 {
          bonus := bonus - 5;
        }
      }
      assert black[..|black|] == black;
    }
    assert minors[..|minors|] == minors;
  }

  // ---------------------------------------------------------------------------
  // Colour symmetry

  function SwapColor(x: Option<Piece>): Option<Piece> {
    match x
    case None => None
    case Some(p) => Some(Piece(p.kind, Opponent(p.color)))
  }

  /** Every piece moved to the reflected square, with its colour swapped. */
  function MirrorPlacement(b: Placement): Placement {
    seq(64, i requires 0 <= i < 64 => SwapColor(b[MirrorSquare(i)]))
  }

  /** The colour-mirrored position: ranks reflected, colours swapped, the other side to move. */
  function Mirror(p: Position): Position {
    Position(MirrorPlacement(p.placement), Opponent(p.turn), p.isCheckmate, p.isStalemate, p.isInsufficientMaterial)
  }

  lemma {:induction false} SumConcat(s: seq<int>, t: seq<int>)
    ensures Sum(s + t) == Sum(s) + Sum(t)
  {
    if t != [] {
      assert (s + t)[..|s + t| - 1] == s + t[..|t| - 1];
      SumConcat(s, t[..|t| - 1]);
    } else {
      assert s + t == s;
    }
  }

  lemma {:induction false} SumNegated(s: seq<int>, t: seq<int>)
    requires |s| == |t|
    requires forall i :: 0 <= i < |s| ==> t[i] == -s[i]
    ensures Sum(t) == -Sum(s)
  {
    if s != [] {
      SumNegated(s[..|s| - 1], t[..|t| - 1]);
    }
  }

  /** The entry of s on file f of rank r, when s is read as ranks of 8. */
  function Cell(s: seq<int>, r: nat, f: nat): int
    requires f < 8 && 8 * r + f < |s|
  {
    s[8 * r + f]
  }

  /**
   * Two sequences of n ranks of 8, where rank r of t is rank n - 1 - r of s
   * negated, have opposite sums.
   */
  lemma {:induction false} RanksReversedSum(s: seq<int>, t: seq<int>, n: nat)
    requires |s| == |t| == 8 * n
    requires forall r: nat, f: nat :: r < n && f < 8 ==> Cell(t, r, f) == -Cell(s, n - 1 - r, f)
    ensures Sum(t) == -Sum(s)
  {
    if n > 0 {
      var m := 8 * (n - 1);
      var top, rest := t[..8], t[8..];
      var low, last := s[..m], s[m..];
      assert t == top + rest;
      assert s == low + last;
      SumConcat(top, rest);
      SumConcat(low, last);
      forall i | 0 <= i < 8 ensures top[i] == -last[i] {
        assert Cell(t, 0, i) == -Cell(s, n - 1, i);
      }
      SumNegated(last, top);
      forall r: nat, f: nat | r < n - 1 && f < 8
        ensures Cell(rest, r, f) == -Cell(low, n - 1 - 1 - r, f)
      {
        assert Cell(t, r + 1, f) == -Cell(s, n - 1 - (r + 1), f);
      }
      RanksReversedSum(low, rest, n - 1);
    }
  }

  /** Square (r, f) of the mirrored placement holds the colour-swapped piece of square (7 - r, f). */
  lemma MirrorCell(b: Placement, r: nat, f: nat)
    requires r < 8 && f < 8
    ensures MirrorPlacement(b)[8 * r + f] == SwapColor(b[8 * (7 - r) + f])
  {
    SquareOf(r, f);
  }

  lemma MirrorSquareTerms(b: Placement, r: nat, f: nat)
    requires r < 8 && f < 8
    ensures SquareTerms(MirrorPlacement(b))[8 * r + f] == -SquareTerms(b)[8 * (7 - r) + f]
  {
    SquareOf(r, f);
    SquareOf(7 - r, f);
    MirrorCell(b, r, f);
  }

  /** The mirrored placement's square terms are the original's, rank-reversed and negated. */
  lemma MirrorNegatesSquareSum(b: Placement)
    ensures Sum(SquareTerms(MirrorPlacement(b))) == -Sum(SquareTerms(b))
  {
    var m := MirrorPlacement(b);
    forall r: nat, f: nat | r < 8 && f < 8
      ensures Cell(SquareTerms(m), r, f) == -Cell(SquareTerms(b), 8 - 1 - r, f)
    {
      MirrorSquareTerms(b, r, f);
    }
    RanksReversedSum(SquareTerms(b), SquareTerms(m), 8);
  }

  lemma CentreOfSwap(x: Option<Piece>)
    ensures CentreOf(SwapColor(x)) == -CentreOf(x)
  {
  }

  /** Reflection swaps E4 with E5 and D4 with D5, so the mirrored centre term is negated. */
  lemma MirrorNegatesCentre(b: Placement)
    ensures CentreTerm(MirrorPlacement(b)) == -CentreTerm(b)
  {
    var m := MirrorPlacement(b);
    CentreTermSquares(b);
    CentreTermSquares(m);
    MirrorCell(b, 3, 4);
    MirrorCell(b, 3, 3);
    MirrorCell(b, 4, 4);
    MirrorCell(b, 4, 3);
    CentreOfSwap(b[E4]);
    CentreOfSwap(b[D4]);
    CentreOfSwap(b[E5]);
    CentreOfSwap(b[D5]);
  }

  /**
   * Reflecting the ranks, swapping the colours of all pieces and handing the
   * move to the other side negates the score.
   */
  lemma MirrorNegatesEvaluation(p: Position)
    ensures Evaluate(Mirror(p)) == -Evaluate(p)
  {
    MirrorNegatesSquareSum(p.placement);
    MirrorNegatesCentre(p.placement);
  }
}
