/** The static evaluation of positions (src/evaluator.rs).

    Positive values favour the maximising side (`PlayerWhite`), negative ones
    the minimising side (`PlayerBlack`). Each feature compares a count for
    each side and normalises the difference to a percentage with Rust's
    integer division, which rounds toward zero. */
module Evaluator {
  import opened MoveGenerator

  /** The five weights of an evaluator. */
  datatype Weights = Weights(count: int, corners: int, immMobility: int, potMobility: int, cornerAdjacent: int)

  /** `Evaluator::default`. */
  const DefaultWeights: Weights := Weights(-100, 4000, 400, 600, 400)

  lemma MulMonotone(d: int, a: int, b: int)
    requires d > 0 && a <= b
    ensures d * a <= d * b
  {
    assert d * b - d * a == d * (b - a);
  }

  /** `x / d` is at least every `q` with `d * q <= x`. */
  lemma DivAtLeast(x: int, d: int, q: int)
    requires d > 0 && d * q <= x
    ensures q <= x / d
  {
    var r := x / d;
    assert x == d * r + x % d;
    if q > r {
      MulMonotone(d, r + 1, q);
    }
  }

  /** `x / d` is below every `q` with `x < d * q`. */
  lemma DivBelow(x: int, d: int, q: int)
    requires d > 0 && x < d * q
    ensures x / d < q
  {
    var r := x / d;
    assert x == d * r + x % d;
    if r >= q {
      MulMonotone(d, q, r);
    }
  }

  /** Rust's `/` on a positive divisor: the quotient rounded toward zero. */
  function TruncDiv(a: int, b: int): (q: int)
    requires b > 0
    ensures a >= 0 ==> 0 <= q <= a
    ensures a <= 0 ==> a <= q <= 0
  {
    if a >= 0 then
      DivAtLeast(a, b, 0);
      DivBelow(a, b, a + 1);
      a / b
    else
      DivAtLeast(-a, b, 0);
      DivBelow(-a, b, -a + 1);
      -((-a) / b)
  }

  /** `100 * (a - b) / (a + b)`, the percentage difference every feature
      reports, with 0 when both counts are 0. */
  function Normalised(a: nat, b: nat): (r: int)
    ensures -100 <= r <= 100
    ensures r > 0 ==> a > b
    ensures r < 0 ==> a < b
    ensures a == b ==> r == 0
    ensures a > 0 && b == 0 ==> r == 100
    ensures a == 0 && b > 0 ==> r == -100
    ensures a > b && a + b <= 100 ==> r > 0
    ensures a < b && a + b <= 100 ==> r < 0
  {
    if a + b == 0 then 0
    else
      QuotientBound(100 * (a - b), a + b);
      TruncDiv(100 * (a - b), a + b)
  }

  lemma QuotientBound(x: int, d: int)
    requires d > 0 && -100 * d <= x <= 100 * d
    ensures -100 <= TruncDiv(x, d) <= 100
    ensures x >= d ==> TruncDiv(x, d) >= 1
    ensures x <= -d ==> TruncDiv(x, d) <= -1
    ensures x == 100 * d ==> TruncDiv(x, d) == 100
    ensures x == -100 * d ==> TruncDiv(x, d) == -100
  {
    var y := if x >= 0 then x else -x;
    DivBelow(y, d, 101);
    if y >= d { DivAtLeast(y, d, 1); }
    if y == 100 * d { DivAtLeast(y, d, 100); }
  }

  /** The guarded division each feature ends with: `100 * (x - y) / (x + y)`
      when `x + y != 0`, and 0 otherwise. */
  method Percentage(x: nat, y: nat) returns (v: int)
    ensures v == Normalised(x, y)
  {
    if x + y != 0 {
      return TruncDiv(100 * (x - y), x + y);
    }
    return 0;
  }

  /** Swapping the two counts negates the result. */
  lemma NormalisedAntisymmetric(a: nat, b: nat)
    ensures Normalised(b, a) == -Normalised(a, b)
  {
  }

  // ---------------------------------------------------------------------------
  // Piece count

  /** Occurrences of `ch` among the first `n` cells of a row. */
  function CountRow(row: seq<char>, ch: char, n: nat): nat
    requires n <= |row|
  {
    if n == 0 then 0 else CountRow(row, ch, n - 1) + (if row[n - 1] == ch then 1 else 0)
  }

  /** Occurrences of `ch` in the first `m` rows of the grid, ring included. */
  function CountRows(g: Grid, ch: char, m: nat): nat
    requires m <= 10
  {
    if m == 0 then 0 else CountRows(g, ch, m - 1) + CountRow(g[m - 1], ch, 10)
  }

  function PieceCount(g: Grid, ch: char): nat {
    CountRows(g, ch, 10)
  }

  predicate HasPieces(g: Grid) {
    PieceCount(g, PlayerWhite) + PieceCount(g, PlayerBlack) > 0
  }

  /** `piece_count_value`: it divides by the number of pieces without a guard,
      so a board with no piece at all makes it panic. */
  method PieceCountValue(g: Grid) returns (v: int)
    requires HasPieces(g)
    ensures v == Normalised(PieceCount(g, PlayerWhite), PieceCount(g, PlayerBlack))
  {
    var maxPlayerCoins := 0;
    var minPlayerCoins := 0;
    for i := 0 to 10
      invariant maxPlayerCoins == CountRows(g, PlayerWhite, i)
      invariant minPlayerCoins == CountRows(g, PlayerBlack, i)
    {
      for j := 0 to 10
        invariant maxPlayerCoins == CountRows(g, PlayerWhite, i) + CountRow(g[i], PlayerWhite, j)
        invariant minPlayerCoins == CountRows(g, PlayerBlack, i) + CountRow(g[i], PlayerBlack, j)
      {
        if g[i][j] == PlayerWhite {
          maxPlayerCoins := maxPlayerCoins + 1;
        } else if g[i][j] == PlayerBlack {
          minPlayerCoins := minPlayerCoins + 1;
        }
      }
    }
    v := TruncDiv(100 * (maxPlayerCoins - minPlayerCoins), maxPlayerCoins + minPlayerCoins);
  }

  // ---------------------------------------------------------------------------
  // Corners and the squares next to them

  /** 1 when the cell holds `ch`, 0 otherwise. */
  function Holds(cell: char, ch: char): nat {
    if cell == ch then 1 else 0
  }

  /** How many of the four corners hold `ch`. */
  function CornersHeld(g: Grid, ch: char): (n: nat)
    ensures n <= 4
  {
    Holds(g[1][1], ch) + Holds(g[1][8], ch) + Holds(g[8][1], ch) + Holds(g[8][8], ch)
  }

  /** How many of the twelve squares next to the corners hold `ch`: the
      diagonal neighbours (2,2), (2,7), (7,2), (7,7) and the edge
      neighbours (2,1), (1,2), (1,7), (2,8), (7,1), (7,8), (8,2), (8,7). */
  function CornerAdjacentHeld(g: Grid, ch: char): (n: nat)
    ensures n <= 12
  {
    Holds(g[2][2], ch) + Holds(g[2][7], ch) + Holds(g[7][2], ch) + Holds(g[7][7], ch) +
    Holds(g[2][1], ch) + Holds(g[1][2], ch) + Holds(g[1][7], ch) + Holds(g[2][8], ch) +
    Holds(g[7][1], ch) + Holds(g[7][8], ch) + Holds(g[8][2], ch) + Holds(g[8][7], ch)
  }

  /** A square never counts for both sides. */
  lemma HeldDisjoint(g: Grid)
    ensures CornersHeld(g, PlayerWhite) + CornersHeld(g, PlayerBlack) <= 4
    ensures CornerAdjacentHeld(g, PlayerWhite) + CornerAdjacentHeld(g, PlayerBlack) <= 12
  {
    forall cell: char
      ensures Holds(cell, PlayerWhite) + Holds(cell, PlayerBlack) <= 1
    {
    }
  }

  /** One arm of the source's `match` on a square: a white piece counts for
      the first total, a black piece for the second, anything else for neither. */
  method CountSquare(cell: char, white: nat, black: nat) returns (white': nat, black': nat)
    ensures white' == white + Holds(cell, PlayerWhite)
    ensures black' == black + Holds(cell, PlayerBlack)
  {
    white', black' := white, black;
    if cell == PlayerWhite {
      white' := white + 1;
    } else if cell == PlayerBlack {
      black' := black + 1;
    }
  }

  function CornerBalance(g: Grid): int {
    Normalised(CornersHeld(g, PlayerWhite), CornersHeld(g, PlayerBlack))
  }

  /** `corners_value`. */
  method CornersValue(g: Grid) returns (v: int)
    ensures v == CornerBalance(g)
  {
    var maxCorners: nat := 0;
    var minCorners: nat := 0;
    var topLeft := g[1][1];
    var topRight := g[1][8];
    var bottomLeft := g[8][1];
    var bottomRight := g[8][8];
    maxCorners, minCorners := CountSquare(topLeft, maxCorners, minCorners);
    maxCorners, minCorners := CountSquare(topRight, maxCorners, minCorners);
    maxCorners, minCorners := CountSquare(bottomLeft, maxCorners, minCorners);
    maxCorners, minCorners := CountSquare(bottomRight, maxCorners, minCorners);
    v := Percentage(maxCorners, minCorners);
  }

  /** With at most four corners, the sign of the corner feature is exact. */
  lemma CornerBalanceSign(g: Grid)
    ensures CornerBalance(g) > 0 <==> CornersHeld(g, PlayerWhite) > CornersHeld(g, PlayerBlack)
    ensures CornerBalance(g) < 0 <==> CornersHeld(g, PlayerWhite) < CornersHeld(g, PlayerBlack)
  {
    HeldDisjoint(g);
  }

  /** The corner-adjacent feature: negative when the maximiser holds more of
      the squares next to corners. */
  function CornerAdjacentBalance(g: Grid): int {
    -Normalised(CornerAdjacentHeld(g, PlayerWhite), CornerAdjacentHeld(g, PlayerBlack))
  }

  /** `giving_away_corners`. */
  method GivingAwayCorners(g: Grid) returns (v: int)
    ensures v == CornerAdjacentBalance(g)
  {
    var whiteValue: nat := 0;
    var blackValue: nat := 0;
    whiteValue, blackValue := CountSquare(g[2][2], whiteValue, blackValue);
    whiteValue, blackValue := CountSquare(g[2][7], whiteValue, blackValue);
    whiteValue, blackValue := CountSquare(g[7][2], whiteValue, blackValue);
    whiteValue, blackValue := CountSquare(g[7][7], whiteValue, blackValue);
    whiteValue, blackValue := CountSquare(g[2][1], whiteValue, blackValue);
    whiteValue, blackValue := CountSquare(g[1][2], whiteValue, blackValue);
    whiteValue, blackValue := CountSquare(g[1][7], whiteValue, blackValue);
    whiteValue, blackValue := CountSquare(g[2][8], whiteValue, blackValue);
    whiteValue, blackValue := CountSquare(g[7][1], whiteValue, blackValue);
    whiteValue, blackValue := CountSquare(g[7][8], whiteValue, blackValue);
    whiteValue, blackValue := CountSquare(g[8][2], whiteValue, blackValue);
    whiteValue, blackValue := CountSquare(g[8][7], whiteValue, blackValue);
    v := Percentage(whiteValue, blackValue);
    v := -v;
  }

  /** With at most twelve squares, the sign of the corner-adjacent feature is
      exact and opposite to who holds more of them. */
  lemma CornerAdjacentBalanceSign(g: Grid)
    ensures CornerAdjacentBalance(g) < 0 <==> CornerAdjacentHeld(g, PlayerWhite) > CornerAdjacentHeld(g, PlayerBlack)
    ensures CornerAdjacentBalance(g) > 0 <==> CornerAdjacentHeld(g, PlayerWhite) < CornerAdjacentHeld(g, PlayerBlack)
  {
    HeldDisjoint(g);
  }

  // ---------------------------------------------------------------------------
  // Potential mobility

  function Flag(cell: char): nat {
    if cell == EmptyCell then 1 else 0
  }

  /** How many empty cells `potential_mobility` counts around a piece at
      `(r, c)`, by case of the source. Its `below` reads the row above, so
      wherever `below` is used the cell above counts instead, and for columns
      2..7 of rows 2..7 nothing but `above` and `below` is inspected. */
  function FrontierAt(g: Grid, r: int, c: int): (n: nat)
    requires OnPlayArea(r, c)
    ensures n <= 5
  {
    var above, below := g[r - 1][c], g[r - 1][c];
    var right, left := g[r][c + 1], g[r][c - 1];
    var topRight, topLeft := g[r - 1][c + 1], g[r - 1][c - 1];
    var botRight, botLeft := g[r + 1][c + 1], g[r + 1][c - 1];
    if r == 1 then
      (if c == 1 then Flag(right) + Flag(below) + Flag(botRight)
       else if c == 8 then Flag(left) + Flag(below) + Flag(botLeft)
       else Flag(left) + Flag(right) + Flag(botLeft) + Flag(below) + Flag(botRight))
    else if r == 8 then
      (if c == 1 then Flag(above) + Flag(topRight) + Flag(right)
       else if c == 8 then Flag(above) + Flag(topLeft) + Flag(left)
       else Flag(topLeft) + Flag(topRight) + Flag(left) + Flag(right))
    else
      Flag(above) + Flag(below) +
      (if c == 1 then Flag(topRight) + Flag(right) + Flag(botRight)
       else if c == 8 then Flag(topLeft) + Flag(left) + Flag(botLeft)
       else 0)
  }

  /** Inside the board only the cell above a piece is consulted, counted
      twice; the cell below never is. */
  lemma FrontierInterior(g: Grid, r: int, c: int)
    requires 2 <= r <= 7 && 2 <= c <= 7
    ensures FrontierAt(g, r, c) == if g[r - 1][c] == EmptyCell then 2 else 0
    ensures FrontierAt(g[r + 1 := g[r + 1][c := PlayerWhite]], r, c) == FrontierAt(g[r + 1 := g[r + 1][c := EmptyCell]], r, c)
  {
  }

  /** Frontier counts of the pieces `ch` in columns 1..n of row `r`. */
  function FrontierRow(g: Grid, ch: char, r: int, n: nat): nat
    requires 1 <= r <= 8 && n <= 8
  {
    if n == 0 then 0
    else FrontierRow(g, ch, r, n - 1) + (if g[r][n] == ch then FrontierAt(g, r, n) else 0)
  }

  /** Frontier counts of the pieces `ch` in rows 1..m. */
  function FrontierRows(g: Grid, ch: char, m: nat): nat
    requires m <= 8
  {
    if m == 0 then 0 else FrontierRows(g, ch, m - 1) + FrontierRow(g, ch, m, 8)
  }

  /** Empty squares next to black pieces count for the maximiser, those next
      to white pieces for the minimiser. */
  function FrontierBalance(g: Grid): int {
    Normalised(FrontierRows(g, PlayerBlack, 8), FrontierRows(g, PlayerWhite, 8))
  }

  /** `potential_mobility`. */
  method PotentialMobility(g: Grid) returns (v: int)
    ensures v == FrontierBalance(g)
  {
    var whiteCount: nat := 0;
    var blackCount: nat := 0;
    for row := 1 to 9
      invariant whiteCount == FrontierRows(g, PlayerBlack, row - 1)
      invariant blackCount == FrontierRows(g, PlayerWhite, row - 1)
    {
      for col := 1 to 9
        invariant whiteCount == FrontierRows(g, PlayerBlack, row - 1) + FrontierRow(g, PlayerBlack, row, col - 1)
        invariant blackCount == FrontierRows(g, PlayerWhite, row - 1) + FrontierRow(g, PlayerWhite, row, col - 1)
      {
        if g[row][col] == PlayerBlack || g[row][col] == PlayerWhite {
          var above := g[row - 1][col];
          var below := g[row - 1][col];
          var right := g[row][col + 1];
          var left := g[row][col - 1];
          var topRight := g[row - 1][col + 1];
          var topLeft := g[row - 1][col - 1];
          var botRight := g[row + 1][col + 1];
          var botLeft := g[row + 1][col - 1];
          var empties := 0;
          if row == 1 {
            if col == 1 {
              empties := Flag(right) + Flag(below) + Flag(botRight);
            } else if col == 8 {
              empties := Flag(left) + Flag(below) + Flag(botLeft);
            } else {
              empties := Flag(left) + Flag(right) + Flag(botLeft) + Flag(below) + Flag(botRight);
            }
          } else if row == 8 {
            if col == 1 {
              empties := Flag(above) + Flag(topRight) + Flag(right);
            } else if col == 8 {
              empties := Flag(above) + Flag(topLeft) + Flag(left);
            } else {
              empties := Flag(topLeft) + Flag(topRight) + Flag(left) + Flag(right);
            }
          } else {
            empties := Flag(above) + Flag(below);
            if col == 1 {
              empties := empties + Flag(topRight) + Flag(right) + Flag(botRight);
            } else if col == 8 {
              empties := empties + Flag(topLeft) + Flag(left) + Flag(botLeft);
            }
          }
          assert empties == FrontierAt(g, row, col);
          if g[row][col] == PlayerBlack {
            whiteCount := whiteCount + empties;
          } else {
            blackCount := blackCount + empties;
          }
        }
      }
    }
    v := Percentage(whiteCount, blackCount);
  }

  // ---------------------------------------------------------------------------
  // Immediate mobility

  /** The moves each side would have on this board if it were to move. */
  function MobilityBalance(g: Grid): int {
    Normalised(|Moves(Position(g, true))|, |Moves(Position(g, false))|)
  }

  /** `immediate_mobility`: generates the moves of both sides, whichever is to move. */
  method ImmediateMobility(p: Position) returns (v: int)
    requires Bordered(p)
    ensures v == MobilityBalance(p.board)
  {
    var numMaxMoves: nat;
    var numMinMoves: nat;
    if p.maxPlayer {
      var minBoard := Position(p.board, false);
      var maxMoves := GetMoves(p);
      var minMoves := GetMoves(minBoard);
      numMaxMoves, numMinMoves := |maxMoves|, |minMoves|;
    } else {
      var maxBoard := Position(p.board, true);
      var maxMoves := GetMoves(maxBoard);
      var minMoves := GetMoves(p);
      numMaxMoves, numMinMoves := |maxMoves|, |minMoves|;
    }
    v := Percentage(numMaxMoves, numMinMoves);
  }

  // ---------------------------------------------------------------------------
  // The evaluation

  /** The weighted sum of the five features, in the source's order. */
  function Weighted(w: Weights, pieces: int, corners: int, mobility: int, frontier: int, adjacent: int): int {
    w.count * pieces + w.corners * corners + w.immMobility * mobility + w.potMobility * frontier +
    w.cornerAdjacent * adjacent
  }

  /** Negating every feature negates the weighted sum. */
  lemma WeightedNegates(w: Weights, pieces: int, corners: int, mobility: int, frontier: int, adjacent: int,
                        pieces': int, corners': int, mobility': int, frontier': int, adjacent': int)
    requires pieces' == -pieces && corners' == -corners && mobility' == -mobility
    requires frontier' == -frontier && adjacent' == -adjacent
    ensures Weighted(w, pieces', corners', mobility', frontier', adjacent') ==
            -Weighted(w, pieces, corners, mobility, frontier, adjacent)
  {
    assert w.count * pieces' == -(w.count * pieces);
    assert w.corners * corners' == -(w.corners * corners);
    assert w.immMobility * mobility' == -(w.immMobility * mobility);
    assert w.potMobility * frontier' == -(w.potMobility * frontier);
    assert w.cornerAdjacent * adjacent' == -(w.cornerAdjacent * adjacent);
  }

  /** The value `evaluate` computes. It reads only the board: the side to
      move plays no part. */
  function Evaluation(w: Weights, g: Grid): int
    requires HasPieces(g)
  {
    Weighted(w, Normalised(PieceCount(g, PlayerWhite), PieceCount(g, PlayerBlack)), CornerBalance(g),
             MobilityBalance(g), FrontierBalance(g), CornerAdjacentBalance(g))
  }

  /** `evaluate`. */
  method Evaluate(w: Weights, p: Position) returns (v: int)
    requires Bordered(p) && HasPieces(p.board)
    ensures v == Evaluation(w, p.board)
  {
    var pieces := PieceCountValue(p.board);
    var corners := CornersValue(p.board);
    var immediate := ImmediateMobility(p);
    var potential := PotentialMobility(p.board);
    var adjacent := GivingAwayCorners(p.board);
    v := w.count * pieces + w.corners * corners + w.immMobility * immediate +
         w.potMobility * potential + w.cornerAdjacent * adjacent;
  }

  /** Every feature lies in [-100, 100], so the default evaluation lies
      within 100 times the sum of the absolute weights. */
  lemma EvaluationBound(g: Grid)
    requires HasPieces(g)
    ensures -550000 <= Evaluation(DefaultWeights, g) <= 550000
  {
  }

  // ---------------------------------------------------------------------------
  // Colour symmetry

  lemma {:induction false} CountRowMirrored(a: seq<char>, b: seq<char>, n: nat)
    requires n <= |a| && n <= |b|
    requires forall j :: 0 <= j < n ==> b[j] == SwapColour(a[j])
    ensures CountRow(b, PlayerWhite, n) == CountRow(a, PlayerBlack, n)
    ensures CountRow(b, PlayerBlack, n) == CountRow(a, PlayerWhite, n)
  {
    if n > 0 {
      CountRowMirrored(a, b, n - 1);
    }
  }

  lemma {:induction false} CountRowsMirrored(g: Grid, m: nat)
    requires m <= 10
    ensures CountRows(SwapColours(g), PlayerWhite, m) == CountRows(g, PlayerBlack, m)
    ensures CountRows(SwapColours(g), PlayerBlack, m) == CountRows(g, PlayerWhite, m)
  {
    if m > 0 {
      CountRowsMirrored(g, m - 1);
      CountRowMirrored(g[m - 1], SwapColours(g)[m - 1], 10);
    }
  }

  lemma {:induction false} FrontierRowMirrored(g: Grid, r: int, n: nat)
    requires 1 <= r <= 8 && n <= 8
    ensures FrontierRow(SwapColours(g), PlayerWhite, r, n) == FrontierRow(g, PlayerBlack, r, n)
    ensures FrontierRow(SwapColours(g), PlayerBlack, r, n) == FrontierRow(g, PlayerWhite, r, n)
  {
    if n > 0 {
      FrontierRowMirrored(g, r, n - 1);
      assert FrontierAt(SwapColours(g), r, n) == FrontierAt(g, r, n);
    }
  }

  lemma {:induction false} FrontierRowsMirrored(g: Grid, m: nat)
    requires m <= 8
    ensures FrontierRows(SwapColours(g), PlayerWhite, m) == FrontierRows(g, PlayerBlack, m)
    ensures FrontierRows(SwapColours(g), PlayerBlack, m) == FrontierRows(g, PlayerWhite, m)
  {
    if m > 0 {
      FrontierRowsMirrored(g, m - 1);
      FrontierRowMirrored(g, m, 8);
    }
  }

  lemma PieceBalanceMirrored(g: Grid)
    ensures PieceCount(SwapColours(g), PlayerWhite) == PieceCount(g, PlayerBlack)
    ensures PieceCount(SwapColours(g), PlayerBlack) == PieceCount(g, PlayerWhite)
    ensures Normalised(PieceCount(SwapColours(g), PlayerWhite), PieceCount(SwapColours(g), PlayerBlack)) ==
            -Normalised(PieceCount(g, PlayerWhite), PieceCount(g, PlayerBlack))
  {
    CountRowsMirrored(g, 10);
    NormalisedAntisymmetric(PieceCount(g, PlayerWhite), PieceCount(g, PlayerBlack));
  }

  lemma HoldsMirrored(cell: char)
    ensures Holds(SwapColour(cell), PlayerWhite) == Holds(cell, PlayerBlack)
    ensures Holds(SwapColour(cell), PlayerBlack) == Holds(cell, PlayerWhite)
  {
  }

  lemma CornersMirrored(g: Grid)
    ensures CornerBalance(SwapColours(g)) == -CornerBalance(g)
  {
    var s := SwapColours(g);
    HoldsMirrored(g[1][1]);
    HoldsMirrored(g[1][8]);
    HoldsMirrored(g[8][1]);
    HoldsMirrored(g[8][8]);
    assert CornersHeld(s, PlayerWhite) == CornersHeld(g, PlayerBlack);
    assert CornersHeld(s, PlayerBlack) == CornersHeld(g, PlayerWhite);
    NormalisedAntisymmetric(CornersHeld(g, PlayerWhite), CornersHeld(g, PlayerBlack));
  }

  lemma CornerAdjacentMirrored(g: Grid)
    ensures CornerAdjacentBalance(SwapColours(g)) == -CornerAdjacentBalance(g)
  {
    var s := SwapColours(g);
    HoldsMirrored(g[2][2]);
    HoldsMirrored(g[2][7]);
    HoldsMirrored(g[7][2]);
    HoldsMirrored(g[7][7]);
    HoldsMirrored(g[2][1]);
    HoldsMirrored(g[1][2]);
    HoldsMirrored(g[1][7]);
    HoldsMirrored(g[2][8]);
    HoldsMirrored(g[7][1]);
    HoldsMirrored(g[7][8]);
    HoldsMirrored(g[8][2]);
    HoldsMirrored(g[8][7]);
    assert CornerAdjacentHeld(s, PlayerWhite) == CornerAdjacentHeld(g, PlayerBlack);
    assert CornerAdjacentHeld(s, PlayerBlack) == CornerAdjacentHeld(g, PlayerWhite);
    NormalisedAntisymmetric(CornerAdjacentHeld(g, PlayerWhite), CornerAdjacentHeld(g, PlayerBlack));
  }

  lemma FrontierBalanceMirrored(g: Grid)
    ensures FrontierBalance(SwapColours(g)) == -FrontierBalance(g)
  {
    FrontierRowsMirrored(g, 8);
    NormalisedAntisymmetric(FrontierRows(g, PlayerBlack, 8), FrontierRows(g, PlayerWhite, 8));
  }

  lemma MobilityBalanceMirrored(g: Grid)
    ensures MobilityBalance(SwapColours(g)) == -MobilityBalance(g)
  {
    var s := SwapColours(g);
    MovesMirrored(Position(g, false), Position(s, true));
    MovesMirrored(Position(g, true), Position(s, false));
    NormalisedAntisymmetric(|Moves(Position(g, true))|, |Moves(Position(g, false))|);
  }

  /** Exchanging the colours of all pieces negates the evaluation: the
      evaluator favours neither colour. */
  lemma EvaluationMirrored(w: Weights, g: Grid)
    requires HasPieces(g)
    ensures HasPieces(SwapColours(g))
    ensures Evaluation(w, SwapColours(g)) == -Evaluation(w, g)
  {
    PieceBalanceMirrored(g);
    CornersMirrored(g);
    CornerAdjacentMirrored(g);
    FrontierBalanceMirrored(g);
    MobilityBalanceMirrored(g);
    var s := SwapColours(g);
    WeightedNegates(w, Normalised(PieceCount(g, PlayerWhite), PieceCount(g, PlayerBlack)), CornerBalance(g),
                    MobilityBalance(g), FrontierBalance(g), CornerAdjacentBalance(g),
                    Normalised(PieceCount(s, PlayerWhite), PieceCount(s, PlayerBlack)), CornerBalance(s),
                    MobilityBalance(s), FrontierBalance(s), CornerAdjacentBalance(s));
  }
}
