/** The position model and legal-move generator (src/move_generator.rs).

    A position is a 10x10 grid of characters: the playable 8x8 area sits at
    rows and columns 1..8, and the outer ring holds `EmptyCell` so that the
    direction scans can look one cell beyond the playable area. Moves are
    reported with 0-based coordinates `(row, col)` of the playable area, i.e.
    internal cell `(row + 1, col + 1)`. */
module MoveGenerator {
  import opened Wrappers

  const PlayerWhite: char := 'O'   // the maximising side
  const PlayerBlack: char := 'X'   // the minimising side
  const EmptyCell: char := 'E'
  const BoardSize: nat := 8

  /** The board of a position: always ten rows of ten cells. */
  type Grid = g: seq<seq<char>> | |g| == 10 && forall r :: 0 <= r < 10 ==> |g[r]| == 10
    witness seq(10, _ => seq(10, _ => 'E'))

  datatype Position = Position(board: Grid, maxPlayer: bool)

  /** `Move::new(player, row, col)` is this constructor. */
  datatype Move = Move(player: char, row: nat, col: nat)

  function Min(a: int, b: int): int { if a <= b then a else b }

  predicate InGrid(r: int, c: int) { 0 <= r < 10 && 0 <= c < 10 }

  predicate OnPlayArea(r: int, c: int) { 1 <= r <= 8 && 1 <= c <= 8 }

  /** The outer ring holds `EmptyCell` everywhere. Every position the source
      builds has this shape; the scans rely on it to stay inside the grid. */
  predicate Bordered(p: Position) {
    forall i :: 0 <= i < 10 ==>
      p.board[0][i] == EmptyCell && p.board[9][i] == EmptyCell &&
      p.board[i][0] == EmptyCell && p.board[i][9] == EmptyCell
  }

  /** The piece the side to move places. */
  function PlayerToMove(p: Position): char {
    if p.maxPlayer then PlayerWhite else PlayerBlack
  }

  // ---------------------------------------------------------------------------
  // Building positions

  /** `OthelloPosition::empty`: every cell empty, the maximiser to move. */
  function Empty(): (p: Position)
    ensures p.maxPlayer
    ensures forall r, c :: InGrid(r, c) ==> p.board[r][c] == EmptyCell
  {
    Position(seq(10, _ => seq(10, _ => EmptyCell)), true)
  }

  /** `OthelloPosition::new`: a string of any length other than 65 gives the
      empty position; otherwise the first character says who moves and the
      other 64 fill the playable area row by row. */
  method New(s: string) returns (p: Position)
    ensures |s| != 65 ==> p == Empty()
    ensures |s| == 65 ==> (p.maxPlayer <==> s[0] == PlayerWhite)
    ensures |s| == 65 ==> forall i :: 1 <= i <= 64 ==> p.board[(i - 1) / 8 + 1][(i - 1) % 8 + 1] == s[i]
    ensures Bordered(p)
  {
    if |s| != 65 {
      return Empty();
    }
    var board: Grid := seq(10, _ => seq(10, _ => EmptyCell));
    var maxPlayer := false;
    if s[0] == PlayerWhite {
      maxPlayer := true;
    }
    for i := 1 to 65
      invariant forall r, c :: InGrid(r, c) ==>
        board[r][c] == if OnPlayArea(r, c) && (r - 1) * 8 + c < i then s[(r - 1) * 8 + c] else EmptyCell
    {
      var ch := s[i];
      var col := (i - 1) % BoardSize + 1;
      var row := (i - 1) / 8 + 1;
      SquareUnique(i);
      board := board[row := board[row][col := ch]];
    }
    p := Position(board, maxPlayer);
    forall i | 1 <= i <= 64
      ensures p.board[(i - 1) / 8 + 1][(i - 1) % 8 + 1] == s[i]
    {
      SquareUnique(i);
    }
  }

  /** Square number `i` (1..64) of the input string is internal cell
      `((i - 1) / 8 + 1, (i - 1) % 8 + 1)`, and no other playable cell. */
  lemma SquareUnique(i: int)
    requires 1 <= i <= 64
    ensures OnPlayArea((i - 1) / 8 + 1, (i - 1) % 8 + 1)
    ensures ((i - 1) / 8) * 8 + (i - 1) % 8 + 1 == i
    ensures forall r, c :: OnPlayArea(r, c) && (r - 1) * 8 + c == i ==> r == (i - 1) / 8 + 1 && c == (i - 1) % 8 + 1
  {
  }

  /** `OthelloPosition::add_piece`: a fresh position in which one cell holds
      `player` and the other side is to move. Indexing panics outside the grid. */
  function AddPiece(p: Position, row: nat, col: nat, player: char): (q: Position)
    requires row < 10 && col < 10
    ensures q.board[row][col] == player
    ensures forall r, c :: InGrid(r, c) && (r, c) != (row, col) ==> q.board[r][c] == p.board[r][c]
    ensures q.maxPlayer == !p.maxPlayer
  {
    Position(p.board[row := p.board[row][col := player]], !p.maxPlayer)
  }

  /** `Move::make_move`. */
  function MakeMove(p: Position, toMake: Option<Move>): (r: Option<Position>)
    requires toMake.Some? ==> toMake.value.row < 10 && toMake.value.col < 10
    ensures toMake.None? <==> r.None?
    ensures toMake.Some? ==> r.value == AddPiece(p, toMake.value.row, toMake.value.col, toMake.value.player)
  {
    match toMake
    case Some(m) => Some(AddPiece(p, m.row, m.col, m.player))
    case None => None
  }

  // ---------------------------------------------------------------------------
  // Cell tests

  predicate IsFree(p: Position, r: int, c: int)
    requires InGrid(r, c)
  {
    p.board[r][c] == EmptyCell
  }

  /** The piece belongs to the side that is not to move. */
  predicate IsOpponentPiece(p: Position, ch: char) {
    (p.maxPlayer && ch == PlayerBlack) || (!p.maxPlayer && ch == PlayerWhite)
  }

  /** The piece belongs to the side to move. */
  predicate IsOwnPiece(p: Position, ch: char) {
    (!p.maxPlayer && ch == PlayerBlack) || (p.maxPlayer && ch == PlayerWhite)
  }

  predicate IsOpponentSquare(p: Position, r: int, c: int)
    requires InGrid(r, c)
  {
    IsOpponentPiece(p, p.board[r][c])
  }

  predicate IsOwnSquare(p: Position, r: int, c: int)
    requires InGrid(r, c)
  {
    IsOwnPiece(p, p.board[r][c])
  }

  /** A cell is never both the mover's and the opponent's, and neither kind is free. */
  lemma SquareKindsDisjoint(p: Position, r: int, c: int)
    requires InGrid(r, c)
    ensures !(IsOpponentSquare(p, r, c) && IsOwnSquare(p, r, c))
    ensures IsOpponentSquare(p, r, c) || IsOwnSquare(p, r, c) ==> !IsFree(p, r, c)
  {
  }

  /** Some of the eight surrounding cells is not free. */
  predicate HasNeighbor(p: Position, r: int, c: int)
    requires OnPlayArea(r, c)
  {
    !IsFree(p, r - 1, c) || !IsFree(p, r - 1, c + 1) || !IsFree(p, r, c + 1) || !IsFree(p, r + 1, c + 1) ||
    !IsFree(p, r + 1, c) || !IsFree(p, r + 1, c - 1) || !IsFree(p, r, c - 1) || !IsFree(p, r - 1, c - 1)
  }

  predicate IsCandidate(p: Position, r: int, c: int)
    requires OnPlayArea(r, c)
  {
    IsFree(p, r, c) && HasNeighbor(p, r, c)
  }

  // ---------------------------------------------------------------------------
  // Direction scans

  datatype Direction = North | NorthEast | East | SouthEast | South | SouthWest | West | NorthWest

  /** Row of the cell `k` steps from row `r` in direction `d`. */
  function RowAt(d: Direction, r: int, k: int): int {
    match d
    case North | NorthEast | NorthWest => r - k
    case South | SouthEast | SouthWest => r + k
    case East | West => r
  }

  /** Column of the cell `k` steps from column `c` in direction `d`. */
  function ColAt(d: Direction, c: int, k: int): int {
    match d
    case East | NorthEast | SouthEast => c + k
    case West | NorthWest | SouthWest => c - k
    case North | South => c
  }

  /** How many steps from a playable cell stay inside the 10x10 grid. */
  function Reach(d: Direction, r: int, c: int): int {
    match d
    case North => r
    case NorthEast => Min(r, 9 - c)
    case East => 9 - c
    case SouthEast => Min(9 - r, 9 - c)
    case South => 9 - r
    case SouthWest => Min(9 - r, c)
    case West => c
    case NorthWest => Min(r, c)
  }

  /** The last step each scan of the source visits before it gives up:
      North runs to row 0, South to row 8, West to column 0; East stops at
      column 7 (`(col+2)..BOARD_SIZE`), so a bracketing piece in column 8 is
      never seen; the three bounded diagonals stop at the playable edge; the
      North-West loop's guard does not involve the step, so it runs until the
      ring cell at step `min(r, c)` ends it. */
  function Last(d: Direction, r: int, c: int): int {
    match d
    case North => r
    case NorthEast => Min(r - 1, 8 - c)
    case East => 7 - c
    case SouthEast => Min(8 - r, 8 - c)
    case South => 8 - r
    case SouthWest => Min(8 - r, c - 1)
    case West => c
    case NorthWest => Min(r, c)
  }

  /** The character `k` steps from `(r, c)` in direction `d`. */
  function At(p: Position, d: Direction, r: int, c: int, k: int): char
    requires OnPlayArea(r, c) && 0 <= k <= Reach(d, r, c)
  {
    p.board[RowAt(d, r, k)][ColAt(d, c, k)]
  }

  /** The scan loop from step `k` to step `last`: false at the first free
      cell, true at the first own piece, otherwise it goes on. */
  predicate Ray(p: Position, d: Direction, r: int, c: int, k: int, last: int)
    requires OnPlayArea(r, c) && 0 <= k && last <= Reach(d, r, c)
    decreases last - k + 1
  {
    if k > last then false
    else if At(p, d, r, c, k) == EmptyCell then false
    else if IsOwnPiece(p, At(p, d, r, c, k)) then true
    else Ray(p, d, r, c, k + 1, last)
  }

  /** What a direction scan of the source computes for internal cell `(r, c)`:
      the adjacent cell holds an opponent piece and the scan meets an own piece. */
  predicate Scan(p: Position, d: Direction, r: int, c: int)
    requires OnPlayArea(r, c)
  {
    IsOpponentPiece(p, At(p, d, r, c, 1)) && Ray(p, d, r, c, 2, Last(d, r, c))
  }

  /** `isMove`: the disjunction of seven scans; West is not among them. */
  predicate IsLegal(p: Position, r: int, c: int)
    requires OnPlayArea(r, c)
  {
    Scan(p, North, r, c) || Scan(p, NorthEast, r, c) || Scan(p, East, r, c) || Scan(p, SouthEast, r, c) ||
    Scan(p, South, r, c) || Scan(p, SouthWest, r, c) || Scan(p, NorthWest, r, c)
  }

  /** A scan succeeds exactly when, within its range, it meets an own piece
      after a run of cells that are neither free nor own. */
  lemma {:induction false} RayFindsBracket(p: Position, d: Direction, r: int, c: int, k: int, last: int)
    requires OnPlayArea(r, c) && 0 <= k && last <= Reach(d, r, c)
    ensures Ray(p, d, r, c, k, last) <==>
      exists j :: k <= j <= last && IsOwnPiece(p, At(p, d, r, c, j)) &&
        forall i :: k <= i < j ==> At(p, d, r, c, i) != EmptyCell && !IsOwnPiece(p, At(p, d, r, c, i))
    decreases last - k + 1
  {
    if k <= last {
      RayFindsBracket(p, d, r, c, k + 1, last);
      if Ray(p, d, r, c, k, last) && !IsOwnPiece(p, At(p, d, r, c, k)) {
        var j :| k + 1 <= j <= last && IsOwnPiece(p, At(p, d, r, c, j)) &&
          forall i :: k + 1 <= i < j ==> At(p, d, r, c, i) != EmptyCell && !IsOwnPiece(p, At(p, d, r, c, i));
        assert forall i :: k <= i < j ==> At(p, d, r, c, i) != EmptyCell && !IsOwnPiece(p, At(p, d, r, c, i));
      }
      if !Ray(p, d, r, c, k, last) {
        forall j | k <= j <= last && IsOwnPiece(p, At(p, d, r, c, j))
          ensures exists i :: k <= i < j && (At(p, d, r, c, i) == EmptyCell || IsOwnPiece(p, At(p, d, r, c, i)))
        {
          if j == k {
            assert false;
          } else if At(p, d, r, c, k) == EmptyCell {
            assert k < j;
          } else {
            var i :| k + 1 <= i < j && (At(p, d, r, c, i) == EmptyCell || IsOwnPiece(p, At(p, d, r, c, i)));
          }
        }
      }
    }
  }

  method CheckNorth(p: Position, row: int, col: int) returns (b: bool)
    requires Bordered(p) && OnPlayArea(row, col)
    ensures b == Scan(p, North, row, col)
  {
    if !IsOpponentSquare(p, row - 1, col) {
      return false;
    }
    // the opponent piece is not on the ring, so `row - 2` does not underflow
    assert row >= 2;
    for i := row - 1 downto 0
      invariant Ray(p, North, row, col, 2, row) == Ray(p, North, row, col, row - i + 1, row)
    {
      if IsFree(p, i, col) {
        return false;
      }
      if IsOwnSquare(p, i, col) {
        return true;
      }
    }
    return false;
  }

  method CheckEast(p: Position, row: int, col: int) returns (b: bool)
    requires Bordered(p) && OnPlayArea(row, col)
    ensures b == Scan(p, East, row, col)
  {
    if !IsOpponentSquare(p, row, col + 1) {
      return false;
    }
    var i := col + 2;
    while i < BoardSize
      invariant col + 2 <= i <= 9
      invariant Ray(p, East, row, col, 2, 7 - col) == Ray(p, East, row, col, i - col, 7 - col)
    {
      if IsFree(p, row, i) {
        return false;
      }
      if IsOwnSquare(p, row, i) {
        return true;
      }
      i := i + 1;
    }
    return false;
  }

  method CheckSouth(p: Position, row: int, col: int) returns (b: bool)
    requires Bordered(p) && OnPlayArea(row, col)
    ensures b == Scan(p, South, row, col)
  {
    if !IsOpponentSquare(p, row + 1, col) {
      return false;
    }
    assert row <= 7;
    for i := row + 2 to BoardSize + 1
      invariant Ray(p, South, row, col, 2, 8 - row) == Ray(p, South, row, col, i - row, 8 - row)
    {
      if IsFree(p, i, col) {
        return false;
      }
      if IsOwnSquare(p, i, col) {
        return true;
      }
    }
    return false;
  }

  /** `checkWest`: written in the source but never called by `isMove`. */
  method CheckWest(p: Position, row: int, col: int) returns (b: bool)
    requires Bordered(p) && OnPlayArea(row, col)
    ensures b == Scan(p, West, row, col)
  {
    if !IsOpponentSquare(p, row, col - 1) {
      return false;
    }
    assert col >= 2;
    for i := col - 1 downto 0
      invariant Ray(p, West, row, col, 2, col) == Ray(p, West, row, col, col - i + 1, col)
    {
      if IsFree(p, row, i) {
        return false;
      }
      if IsOwnSquare(p, row, i) {
        return true;
      }
    }
    return false;
  }

  method CheckNorthEast(p: Position, row: int, col: int) returns (b: bool)
    requires Bordered(p) && OnPlayArea(row, col)
    ensures b == Scan(p, NorthEast, row, col)
  {
    if !IsOpponentSquare(p, row - 1, col + 1) {
      return false;
    }
    var i := 2;
    while row - i > 0 && col + i <= BoardSize
      invariant 2 <= i <= row
      invariant i <= Last(NorthEast, row, col) + 1
      invariant Ray(p, NorthEast, row, col, 2, Last(NorthEast, row, col)) ==
                Ray(p, NorthEast, row, col, i, Last(NorthEast, row, col))
    {
      if IsFree(p, row - i, col + i) {
        return false;
      }
      if IsOwnSquare(p, row - i, col + i) {
        return true;
      }
      i := i + 1;
    }
    return false;
  }

  method CheckSouthEast(p: Position, row: int, col: int) returns (b: bool)
    requires Bordered(p) && OnPlayArea(row, col)
    ensures b == Scan(p, SouthEast, row, col)
  {
    if !IsOpponentSquare(p, row + 1, col + 1) {
      return false;
    }
    var i := 2;
    while row + i <= BoardSize && col + i <= BoardSize
      invariant 2 <= i <= Last(SouthEast, row, col) + 1
      invariant Ray(p, SouthEast, row, col, 2, Last(SouthEast, row, col)) ==
                Ray(p, SouthEast, row, col, i, Last(SouthEast, row, col))
    {
      if IsFree(p, row + i, col + i) {
        return false;
      }
      if IsOwnSquare(p, row + i, col + i) {
        return true;
      }
      i := i + 1;
    }
    return false;
  }

  method CheckSouthWest(p: Position, row: int, col: int) returns (b: bool)
    requires Bordered(p) && OnPlayArea(row, col)
    ensures b == Scan(p, SouthWest, row, col)
  {
    if !IsOpponentSquare(p, row + 1, col - 1) {
      return false;
    }
    var i := 2;
    while row + i <= BoardSize && col - i > 0
      invariant 2 <= i <= col
      invariant i <= Last(SouthWest, row, col) + 1
      invariant Ray(p, SouthWest, row, col, 2, Last(SouthWest, row, col)) ==
                Ray(p, SouthWest, row, col, i, Last(SouthWest, row, col))
    {
      if IsFree(p, row + i, col - i) {
        return false;
      }
      if IsOwnSquare(p, row + i, col - i) {
        return true;
      }
      i := i + 1;
    }
    return false;
  }

  /** `checkNorthWest`: its loop guard `(row - 1) > 0 && (col - 1 > 0)` never
      changes, so the loop ends only at a free or own cell; the ring cell at
      step `min(row, col)` is free, which bounds it. */
  method CheckNorthWest(p: Position, row: int, col: int) returns (b: bool)
    requires Bordered(p) && OnPlayArea(row, col)
    ensures b == Scan(p, NorthWest, row, col)
  {
    if !IsOpponentSquare(p, row - 1, col - 1) {
      return false;
    }
    var i := 2;
    while row - 1 > 0 && col - 1 > 0
      invariant 2 <= i <= Min(row, col)
      invariant Ray(p, NorthWest, row, col, 2, Min(row, col)) == Ray(p, NorthWest, row, col, i, Min(row, col))
      decreases Min(row, col) - i
    {
      if IsFree(p, row - i, col - i) {
        return false;
      }
      if IsOwnSquare(p, row - i, col - i) {
        return true;
      }
      i := i + 1;
    }
    return false;
  }

  /** `isMove`: the seven scans in the source's order, stopping at the first success. */
  method IsMove(p: Position, row: int, col: int) returns (b: bool)
    requires Bordered(p) && OnPlayArea(row, col)
    ensures b == IsLegal(p, row, col)
  {
    b := CheckNorth(p, row, col);
    if !b { b := CheckNorthEast(p, row, col); }
    if !b { b := CheckEast(p, row, col); }
    if !b { b := CheckSouthEast(p, row, col); }
    if !b { b := CheckSouth(p, row, col); }
    if !b { b := CheckSouthWest(p, row, col); }
    if !b { b := CheckNorthWest(p, row, col); }
  }

  // ---------------------------------------------------------------------------
  // Move generation

  /** The move `getMoves` reports for playable square `(row, col)` (0-based), if any. */
  function MoveAt(p: Position, row: nat, col: nat): seq<Move>
    requires row < 8 && col < 8
  {
    if IsCandidate(p, row + 1, col + 1) && IsLegal(p, row + 1, col + 1) then [Move(PlayerToMove(p), row, col)]
    else []
  }

  /** `MoveAt` as a total function of the square, reporting nothing off the
      playable area. */
  function Reporter(p: Position): (nat, nat) -> seq<Move> {
    (r: nat, c: nat) => if r < 8 && c < 8 then MoveAt(p, r, c) else []
  }

  /** What a row-major sweep of the playable area collects from `f` at the
      squares before `(row, col)`. */
  function Collect(f: (nat, nat) -> seq<Move>, row: nat, col: nat): seq<Move>
    requires (row < 8 && col <= 8) || (row == 8 && col == 0)
    decreases row, col
  {
    if col == 0 then (if row == 0 then [] else Collect(f, row - 1, 8))
    else Collect(f, row, col - 1) + f(row, col - 1)
  }

  /** The moves `getMoves` has found before reaching square `(row, col)`. */
  function MovesBefore(p: Position, row: nat, col: nat): seq<Move>
    requires (row < 8 && col <= 8) || (row == 8 && col == 0)
  {
    Collect(Reporter(p), row, col)
  }

  /** The list `getMoves` returns. */
  function Moves(p: Position): seq<Move> {
    MovesBefore(p, 8, 0)
  }

  /** `(r1, c1)` comes strictly before `(r2, c2)` in row-major order. */
  predicate Earlier(r1: int, c1: int, r2: int, c2: int) {
    r1 < r2 || (r1 == r2 && c1 < c2)
  }

  /** `f` reports at most one move per square, and only moves naming it. */
  ghost predicate PerSquare(f: (nat, nat) -> seq<Move>) {
    forall r: nat, c: nat :: |f(r, c)| <= 1 && forall m :: m in f(r, c) ==> m.row == r && m.col == c
  }

  lemma ReporterPerSquare(p: Position)
    ensures PerSquare(Reporter(p))
  {
    forall r: nat, c: nat
      ensures |Reporter(p)(r, c)| <= 1 && forall m :: m in Reporter(p)(r, c) ==> m.row == r && m.col == c
    {
      if r < 8 && c < 8 {
        assert Reporter(p)(r, c) == MoveAt(p, r, c);
      }
    }
  }

  /** A sweep collects exactly the moves reported at the squares it has
      passed. */
  lemma {:induction false} CollectMembers(f: (nat, nat) -> seq<Move>, row: nat, col: nat)
    requires (row < 8 && col <= 8) || (row == 8 && col == 0)
    requires PerSquare(f)
    ensures forall m :: m in Collect(f, row, col) <==>
      m.row < 8 && m.col < 8 && Earlier(m.row, m.col, row, col) && m in f(m.row, m.col)
    decreases row, col
  {
    if col == 0 {
      if row > 0 {
        CollectMembers(f, row - 1, 8);
      }
    } else {
      CollectMembers(f, row, col - 1);
      var prev, here := Collect(f, row, col - 1), f(row, col - 1);
      assert Collect(f, row, col) == prev + here;
      forall m | m in here
        ensures m.row == row && m.col == col - 1
      {
      }
    }
  }

  /** A sweep lists its moves in strictly increasing row-major order. */
  lemma {:induction false} CollectOrdered(f: (nat, nat) -> seq<Move>, row: nat, col: nat)
    requires (row < 8 && col <= 8) || (row == 8 && col == 0)
    requires PerSquare(f)
    ensures forall i, j :: 0 <= i < j < |Collect(f, row, col)| ==>
      Earlier(Collect(f, row, col)[i].row, Collect(f, row, col)[i].col,
              Collect(f, row, col)[j].row, Collect(f, row, col)[j].col)
    decreases row, col
  {
    if col == 0 {
      if row > 0 {
        CollectOrdered(f, row - 1, 8);
      }
    } else {
      CollectOrdered(f, row, col - 1);
      CollectMembers(f, row, col - 1);
      var prev, here := Collect(f, row, col - 1), f(row, col - 1);
      var all := Collect(f, row, col);
      assert all == prev + here;
      forall i, j | 0 <= i < j < |all|
        ensures Earlier(all[i].row, all[i].col, all[j].row, all[j].col)
      {
        if j >= |prev| {
          assert all[i] in prev && all[j] in here;
        } else {
          assert all[i] == prev[i] && all[j] == prev[j];
        }
      }
    }
  }

  /** The move reported at a square, if any, names that square and carries
      the mover's piece; it is there exactly when the square is a legal candidate. */
  lemma MoveAtCharacterised(p: Position, m: Move)
    requires m.row < 8 && m.col < 8
    ensures m in MoveAt(p, m.row, m.col) <==>
      m.player == PlayerToMove(p) && IsCandidate(p, m.row + 1, m.col + 1) && IsLegal(p, m.row + 1, m.col + 1)
  {
  }

  /** Every move `getMoves` returns is a legal candidate of the mover on the
      playable area, every legal candidate is returned, and the list is in
      strictly increasing row-major order, so no square appears twice. */
  lemma MovesCharacterised(p: Position)
    ensures forall m :: m in Moves(p) <==>
      m.row < 8 && m.col < 8 && m.player == PlayerToMove(p) &&
      IsCandidate(p, m.row + 1, m.col + 1) && IsLegal(p, m.row + 1, m.col + 1)
    ensures forall i, j :: 0 <= i < j < |Moves(p)| ==>
      Earlier(Moves(p)[i].row, Moves(p)[i].col, Moves(p)[j].row, Moves(p)[j].col)
    ensures forall i, j :: 0 <= i < j < |Moves(p)| ==> (Moves(p)[i].row, Moves(p)[i].col) != (Moves(p)[j].row, Moves(p)[j].col)
  {
    ReporterPerSquare(p);
    CollectMembers(Reporter(p), 8, 0);
    CollectOrdered(Reporter(p), 8, 0);
    forall m: Move | m.row < 8 && m.col < 8
      ensures m in Reporter(p)(m.row, m.col) <==>
        m.player == PlayerToMove(p) && IsCandidate(p, m.row + 1, m.col + 1) && IsLegal(p, m.row + 1, m.col + 1)
    {
      MoveAtCharacterised(p, m);
    }
  }

  /** A reported move names the 0-based square `(row, col)`, but `make_move`
      writes that index into the 10x10 grid unchanged: the checked cell
      `(row + 1, col + 1)` stays free, and a move in the top row or left column
      puts a piece on the ring. */
  lemma MoveWritesRawIndex(p: Position, m: Move)
    requires m in Moves(p)
    ensures m.row < 8 && m.col < 8
    ensures MakeMove(p, Some(m)).value.board[m.row][m.col] == PlayerToMove(p)
    ensures MakeMove(p, Some(m)).value.board[m.row + 1][m.col + 1] == EmptyCell
    ensures m.row == 0 || m.col == 0 ==> !Bordered(MakeMove(p, Some(m)).value)
  {
    MoveIsLegal(p, m);
    var q := AddPiece(p, m.row, m.col, m.player);
    assert q.board[m.row + 1][m.col + 1] == p.board[m.row + 1][m.col + 1];
    if m.row == 0 {
      assert q.board[0][m.col] != EmptyCell;
    } else if m.col == 0 {
      assert q.board[m.row][0] != EmptyCell;
    }
  }

  /** One move of `getMoves`, read off `MovesCharacterised`. */
  lemma MoveIsLegal(p: Position, m: Move)
    requires m in Moves(p)
    ensures m.row < 8 && m.col < 8 && m.player == PlayerToMove(p)
    ensures IsCandidate(p, m.row + 1, m.col + 1) && IsLegal(p, m.row + 1, m.col + 1)
  {
    MovesCharacterised(p);
  }

  /** The first half of `getMoves`: a fresh table marking the candidate
      squares (0-based) of the playable area. */
  method MarkCandidates(p: Position) returns (candidates: array2<bool>)
    ensures fresh(candidates) && candidates.Length0 == BoardSize + 2 && candidates.Length1 == BoardSize + 2
    ensures forall i, j :: 0 <= i < 8 && 0 <= j < 8 ==> candidates[i, j] == IsCandidate(p, i + 1, j + 1)
  {
    candidates := new bool[BoardSize + 2, BoardSize + 2]((_, _) => false);
    for i := 0 to BoardSize
      invariant forall i', j' :: 0 <= i' < i && 0 <= j' < 8 ==> candidates[i', j'] == IsCandidate(p, i' + 1, j' + 1)
    {
      for j := 0 to BoardSize
        invariant forall i', j' :: 0 <= i' < i && 0 <= j' < 8 ==> candidates[i', j'] == IsCandidate(p, i' + 1, j' + 1)
        invariant forall j' :: 0 <= j' < j ==> candidates[i, j'] == IsCandidate(p, i + 1, j' + 1)
      {
        candidates[i, j] := IsCandidate(p, i + 1, j + 1);
      }
    }
  }

  /** The body of `getMoves`'s second loop for one square: a candidate that
      `isMove` accepts is appended with the mover's piece. */
  method VisitSquare(p: Position, candidate: bool, row: nat, col: nat, moves: seq<Move>) returns (moves': seq<Move>)
    requires Bordered(p) && row < 8 && col < 8 && candidate == IsCandidate(p, row + 1, col + 1)
    ensures moves' == moves + MoveAt(p, row, col)
  {
    moves' := moves;
    if candidate {
      var legal := IsMove(p, row + 1, col + 1);
      if legal {
        if p.maxPlayer {
          moves' := moves + [Move(PlayerWhite, row, col)];
        } else {
          moves' := moves + [Move(PlayerBlack, row, col)];
        }
      }
    }
  }

  /** `getMoves`: first marks the candidate squares, then keeps the legal ones. */
  method GetMoves(p: Position) returns (moves: seq<Move>)
    requires Bordered(p)
    ensures moves == Moves(p)
  {
    moves := [];
    var candidates := MarkCandidates(p);
    for row := 0 to BoardSize
      invariant moves == MovesBefore(p, row, 0)
      invariant forall i, j :: 0 <= i < 8 && 0 <= j < 8 ==> candidates[i, j] == IsCandidate(p, i + 1, j + 1)
    {
      for col := 0 to BoardSize
        invariant moves == MovesBefore(p, row, col)
        invariant forall i, j :: 0 <= i < 8 && 0 <= j < 8 ==> candidates[i, j] == IsCandidate(p, i + 1, j + 1)
      {
        moves := VisitSquare(p, candidates[row, col], row, col, moves);
      }
      assert MovesBefore(p, row + 1, 0) == MovesBefore(p, row, 8);
    }
  }

  // ---------------------------------------------------------------------------
  // Recovering a move from two boards

  /** The first index at or after `i` where `a` and `b` differ, or `|a|`. */
  function FirstDiffIndex(a: seq<char>, b: seq<char>, i: nat): (k: nat)
    requires |a| <= |b| && i <= |a|
    ensures i <= k <= |a|
    ensures forall j :: i <= j < k ==> a[j] == b[j]
    ensures k < |a| ==> a[k] != b[k]
    decreases |a| - i
  {
    if i == |a| then |a|
    else if a[i] != b[i] then i
    else FirstDiffIndex(a, b, i + 1)
  }

  /** The move `get_move_from_board_diff` recovers, searching rows from `row` on. */
  function DiffFrom(from: Grid, to: Grid, row: nat): Option<Move>
    requires row <= 10
    decreases 10 - row
  {
    if row == 10 then None
    else
      var k := FirstDiffIndex(from[row], to[row], 0);
      if k < 10 then Some(Move(to[row][k], row, k)) else DiffFrom(from, to, row + 1)
  }

  function BoardDiff(from: Position, to: Position): Option<Move> {
    DiffFrom(from.board, to.board, 0)
  }

  /** The recovered move is the first cell in row-major order where the
      boards differ, carrying the new board's character there; there is none
      exactly when the boards are equal. */
  lemma {:induction false} DiffFromCharacterised(from: Grid, to: Grid, row: nat)
    requires row <= 10
    ensures DiffFrom(from, to, row).None? <==> forall r, c :: row <= r < 10 && 0 <= c < 10 ==> from[r][c] == to[r][c]
    ensures DiffFrom(from, to, row).Some? ==>
      var m := DiffFrom(from, to, row).value;
      row <= m.row < 10 && m.col < 10 && from[m.row][m.col] != to[m.row][m.col] && m.player == to[m.row][m.col] &&
      forall r, c :: InGrid(r, c) && row <= r && Earlier(r, c, m.row, m.col) ==> from[r][c] == to[r][c]
    decreases 10 - row
  {
    if row < 10 {
      DiffFromCharacterised(from, to, row + 1);
    }
  }

  lemma BoardDiffCharacterised(from: Position, to: Position)
    ensures BoardDiff(from, to).None? <==> from.board == to.board
    ensures BoardDiff(from, to).Some? ==>
      var m := BoardDiff(from, to).value;
      m.row < 10 && m.col < 10 && from.board[m.row][m.col] != to.board[m.row][m.col] &&
      m.player == to.board[m.row][m.col] &&
      forall r, c :: InGrid(r, c) && Earlier(r, c, m.row, m.col) ==> from.board[r][c] == to.board[r][c]
  {
    DiffFromCharacterised(from.board, to.board, 0);
    if forall r, c :: 0 <= r < 10 && 0 <= c < 10 ==> from.board[r][c] == to.board[r][c] {
      forall r | 0 <= r < 10 ensures from.board[r] == to.board[r] { }
    }
  }

  /** `vec_differs`: the first index where the rows differ and the second
      row's character there, or `(false, -1, EmptyCell)`. */
  method VecDiffers(fst: seq<char>, snd: seq<char>) returns (differs: bool, index: int, toValue: char)
    requires |fst| <= |snd|
    ensures differs <==> exists i :: 0 <= i < |fst| && fst[i] != snd[i]
    ensures differs ==> 0 <= index < |fst| && fst[index] != snd[index] && toValue == snd[index] &&
                        forall i :: 0 <= i < index ==> fst[i] == snd[i]
    ensures !differs ==> index == -1 && toValue == EmptyCell
  {
    for i := 0 to |fst|
      invariant forall k :: 0 <= k < i ==> fst[k] == snd[k]
    {
      if fst[i] != snd[i] {
        return true, i, snd[i];
      }
    }
    return false, -1, EmptyCell;
  }

  /** `get_move_from_board_diff`. */
  method GetMoveFromBoardDiff(from: Position, to: Position) returns (m: Option<Move>)
    ensures m == BoardDiff(from, to)
    ensures m.None? <==> from.board == to.board
    ensures m.Some? ==> (m.value.row < 10 && m.value.col < 10 &&
      from.board[m.value.row][m.value.col] != to.board[m.value.row][m.value.col] &&
      m.value.player == to.board[m.value.row][m.value.col])
  {
    BoardDiffCharacterised(from, to);
    for row := 0 to 10
      invariant DiffFrom(from.board, to.board, 0) == DiffFrom(from.board, to.board, row)
    {
      var differs, col, toValue := VecDiffers(from.board[row], to.board[row]);
      if differs {
        return Some(Move(toValue, row, col));
      }
    }
    return None;
  }

  // ---------------------------------------------------------------------------
  // Colour symmetry

  function SwapColour(ch: char): char {
    if ch == PlayerWhite then PlayerBlack else if ch == PlayerBlack then PlayerWhite else ch
  }

  /** The board with every white piece made black and every black one white. */
  function SwapColours(g: Grid): (s: Grid)
    ensures forall r, c :: InGrid(r, c) ==> s[r][c] == SwapColour(g[r][c])
  {
    seq(10, r requires 0 <= r < 10 => seq(10, c requires 0 <= c < 10 => SwapColour(g[r][c])))
  }

  /** `q` is `p` with the colours of all pieces and the side to move exchanged. */
  predicate Mirrored(p: Position, q: Position) {
    q.board == SwapColours(p.board) && q.maxPlayer == !p.maxPlayer
  }

  lemma {:induction false} RayMirrored(p: Position, q: Position, d: Direction, r: int, c: int, k: int, last: int)
    requires Mirrored(p, q)
    requires OnPlayArea(r, c) && 0 <= k && last <= Reach(d, r, c)
    ensures Ray(q, d, r, c, k, last) == Ray(p, d, r, c, k, last)
    decreases last - k + 1
  {
    if k <= last {
      RayMirrored(p, q, d, r, c, k + 1, last);
      StepInGrid(d, r, c, k);
      var ch := At(p, d, r, c, k);
      assert At(q, d, r, c, k) == SwapColour(ch);
      assert IsOwnPiece(q, SwapColour(ch)) == IsOwnPiece(p, ch);
    }
  }

  /** Every step a scan may take stays inside the grid. */
  lemma StepInGrid(d: Direction, r: int, c: int, k: int)
    requires OnPlayArea(r, c) && 0 <= k <= Reach(d, r, c)
    ensures InGrid(RowAt(d, r, k), ColAt(d, c, k))
  {
  }

  lemma ScanMirrored(p: Position, q: Position, d: Direction, r: int, c: int)
    requires Mirrored(p, q) && OnPlayArea(r, c)
    ensures Scan(q, d, r, c) == Scan(p, d, r, c)
  {
    RayMirrored(p, q, d, r, c, 2, Last(d, r, c));
    StepInGrid(d, r, c, 1);
  }

  /** Exchanging the colours and the side to move keeps every scan's answer. */
  lemma LegalMirrored(p: Position, q: Position, r: int, c: int)
    requires Mirrored(p, q) && OnPlayArea(r, c)
    ensures IsCandidate(q, r, c) == IsCandidate(p, r, c)
    ensures IsLegal(q, r, c) == IsLegal(p, r, c)
  {
    ScanMirrored(p, q, North, r, c);
    ScanMirrored(p, q, NorthEast, r, c);
    ScanMirrored(p, q, East, r, c);
    ScanMirrored(p, q, SouthEast, r, c);
    ScanMirrored(p, q, South, r, c);
    ScanMirrored(p, q, SouthWest, r, c);
    ScanMirrored(p, q, NorthWest, r, c);
  }

  /** The moves with every piece's colour exchanged. */
  function Recoloured(ms: seq<Move>): (rs: seq<Move>)
    ensures |rs| == |ms|
  {
    seq(|ms|, i requires 0 <= i < |ms| => ms[i].(player := SwapColour(ms[i].player)))
  }

  lemma MoveAtMirrored(p: Position, q: Position, row: nat, col: nat)
    requires Mirrored(p, q) && row < 8 && col < 8
    ensures MoveAt(q, row, col) == Recoloured(MoveAt(p, row, col))
  {
    LegalMirrored(p, q, row + 1, col + 1);
  }

  /** A sweep of a reporter that reports recoloured moves collects the
      recoloured list. */
  lemma {:induction false} CollectRecoloured(f: (nat, nat) -> seq<Move>, g: (nat, nat) -> seq<Move>, row: nat, col: nat)
    requires (row < 8 && col <= 8) || (row == 8 && col == 0)
    requires forall r: nat, c: nat :: g(r, c) == Recoloured(f(r, c))
    ensures Collect(g, row, col) == Recoloured(Collect(f, row, col))
    decreases row, col
  {
    if col == 0 {
      if row > 0 {
        CollectRecoloured(f, g, row - 1, 8);
      }
    } else {
      CollectRecoloured(f, g, row, col - 1);
      var a, b := Collect(f, row, col - 1), f(row, col - 1);
      assert Recoloured(a + b) == Recoloured(a) + Recoloured(b);
    }
  }

  /** The mirrored position has its moves on the same squares, in the same
      order, with the other colour. */
  lemma MovesMirrored(p: Position, q: Position)
    requires Mirrored(p, q)
    ensures Moves(q) == Recoloured(Moves(p))
  {
    forall r: nat, c: nat
      ensures Reporter(q)(r, c) == Recoloured(Reporter(p)(r, c))
    {
      if r < 8 && c < 8 {
        MoveAtMirrored(p, q, r, c);
      }
    }
    CollectRecoloured(Reporter(p), Reporter(q), 8, 0);
  }

  // ---------------------------------------------------------------------------
  // Consequences of the source's quirks

  /** A grid that is empty except for the listed cells. */
  function GridWith(cells: map<(int, int), char>): Grid {
    seq(10, r => seq(10, c => if (r, c) in cells then cells[(r, c)] else EmptyCell))
  }

  /** `isMove` ignores the West direction: with the maximiser to move, an own
      piece at (1,1), an opponent piece at (1,2) and (1,3) free, the West scan
      of (1,3) brackets, yet the square is not legal. */
  lemma WestIsNeverConsulted()
    ensures var p := Position(GridWith(map[(1, 1) := PlayerWhite, (1, 2) := PlayerBlack]), true);
      Scan(p, West, 1, 3) && !IsLegal(p, 1, 3)
  {
    var p := Position(GridWith(map[(1, 1) := PlayerWhite, (1, 2) := PlayerBlack]), true);
    assert At(p, West, 1, 3, 1) == PlayerBlack;
    assert At(p, West, 1, 3, 2) == PlayerWhite;
    assert At(p, NorthWest, 1, 3, 1) == EmptyCell;
    assert At(p, North, 1, 3, 1) == EmptyCell;
    assert At(p, NorthEast, 1, 3, 1) == EmptyCell;
    assert At(p, East, 1, 3, 1) == EmptyCell;
    assert At(p, SouthEast, 1, 3, 1) == EmptyCell;
    assert At(p, South, 1, 3, 1) == EmptyCell;
    assert At(p, SouthWest, 1, 3, 1) == EmptyCell;
  }

  /** The East scan stops before column 8: with an opponent piece at (1,7) and
      an own piece at (1,8), the East scan of (1,6) fails. */
  lemma EastStopsBeforeColumnEight()
    ensures var p := Position(GridWith(map[(1, 7) := PlayerBlack, (1, 8) := PlayerWhite]), true);
      !Scan(p, East, 1, 6)
  {
    var p := Position(GridWith(map[(1, 7) := PlayerBlack, (1, 8) := PlayerWhite]), true);
    assert Last(East, 1, 6) == 1;
  }

  /** For every position and square, a successful East scan is closed by an
      own piece in columns `c + 2` to 7: column 8 never closes one. */
  lemma EastClosesBeforeColumnEight(p: Position, r: int, c: int)
    requires OnPlayArea(r, c)
    ensures Scan(p, East, r, c) ==> exists j :: c + 2 <= j <= 7 && IsOwnPiece(p, p.board[r][j])
  {
    if Scan(p, East, r, c) {
      RayFindsBracket(p, East, r, c, 2, Last(East, r, c));
      var k :| 2 <= k <= Last(East, r, c) && IsOwnPiece(p, At(p, East, r, c, k)) &&
        forall i :: 2 <= i < k ==> At(p, East, r, c, i) != EmptyCell && !IsOwnPiece(p, At(p, East, r, c, i));
      assert At(p, East, r, c, k) == p.board[r][c + k];
    }
  }
}
