/** The row-scan move generator (src/moves.rs): each row of the board is
    scanned once from the left for a square where `player` can place a
    piece, and the columns are scanned the same way as the rows of the
    transposed board. The scan indexes the row without a bounds check in
    three of its loops; reading past the end of the row is the `Panic` of a
    `Result`. */
module Moves {
  import opened Wrappers
  import opened Board

  /** A placement of `player`'s piece on square (`row`, `col`) (`Move::new`). */
  datatype Move = Move(player: char, row: nat, col: nat)

  /** `make_move`: no board without a move, and otherwise the board with the
      move's piece added by `add_piece`. */
  function MakeMove(b: Board, m: Option<Move>): (r: Option<Board>)
    requires m.Some? ==> Fits(b, m.value.row, m.value.col)
    ensures r.Some? <==> m.Some?
    ensures m.Some? ==>
      |r.value.cells| == |b.cells| && forall i :: 0 <= i < |b.cells| ==> |r.value.cells[i]| == |b.cells[i]|
    ensures m.Some? && m.value.row < |b.cells| && m.value.col < |b.cells| ==>
      r.value.cells[m.value.row][m.value.col] == m.value.player
    ensures m.Some? ==> forall i, j ::
      0 <= i < |b.cells| && 0 <= j < |b.cells[i]| && (i != m.value.row || j != m.value.col) ==>
        r.value.cells[i][j] == b.cells[i][j]
    ensures m.Some? && !(m.value.row < |b.cells| && m.value.col < |b.cells|) ==> r.value == b
  {
    match m
    case Some(mv) => Some(AddPiece(b, mv.row, mv.col, mv.player))
    case None => None
  }

  // ---------------------------------------------------------------------------
  // Scanning one row

  /** The three kinds of run the scan moves over. */
  datatype Run = Empties | Own | Opponents

  /** Square content `x` belongs to a run of kind `run`; an opponent piece
      is anything that is neither empty nor `player`. */
  predicate InRun(run: Run, player: char, x: char) {
    match run
    case Empties => x == Empty
    case Own => x == player
    case Opponents => x != Empty && x != player
  }

  /** The end of the run of kind `run` that starts at `i`: the first index
      from `i` on whose square is not in the run, or the length of the row. */
  function RunEnd(row: seq<char>, i: nat, run: Run, player: char): (j: nat)
    requires i <= |row|
    ensures i <= j <= |row|
    ensures forall k :: i <= k < j ==> InRun(run, player, row[k])
    ensures j < |row| ==> !InRun(run, player, row[j])
    decreases |row| - i
  {
    if i == |row| || !InRun(run, player, row[i]) then i else RunEnd(row, i + 1, run, player)
  }

  /** What `valid_pos_in_row` returns. After the leading empty squares: an
      opponent piece with an empty square before it gives that square when
      the opponent run it starts ends on a piece of `player`; otherwise the
      run of `player`'s pieces (possibly none) is followed by an opponent
      run, and the empty square that ends that run is given. A run that
      reaches the end of the row panics. */
  function PosInRow(row: seq<char>, player: char): (r: Result<seq<nat>>)
    ensures r.Ok? ==> |r.value| <= 1 && forall i :: i in r.value ==> i < |row| && row[i] == Empty
    ensures (forall i :: 0 <= i < |row| ==> row[i] == Empty) ==> r == Ok([])
  {
    var k := RunEnd(row, 0, Empties, player);
    if k == |row| then Ok([])
    else if row[k] != player && k > 0 then
      var j := RunEnd(row, k, Opponents, player);
      if j == |row| then Panic
      else if row[j] == player then Ok([k - 1])
      else Ok([])
    else
      var j := RunEnd(row, k, Own, player);
      if j == |row| then Panic
      else if row[j] == Empty then Ok([])
      else
        var l := RunEnd(row, j, Opponents, player);
        if l == |row| then Panic
        else if row[l] == Empty then Ok([l])
        else Ok([])
  }

  /** One of the unchecked loops of `valid_pos_in_row`: the cursor moves
      from `i` over a run of kind `run`, stopping on the first square not in
      it, and the loop panics when the run reaches the end of the row. */
  method SkipRun(row: seq<char>, i: nat, run: Run, player: char) returns (r: Result<nat>)
    requires i <= |row|
    ensures r.Panic? <==> forall k :: i <= k < |row| ==> InRun(run, player, row[k])
    ensures r.Ok? ==> r.value == RunEnd(row, i, run, player) && r.value < |row|
  {
    var j := i;
    while true
      invariant i <= j <= |row| && RunEnd(row, j, run, player) == RunEnd(row, i, run, player)
      decreases |row| - j
    {
      if j == |row| {
        return Panic;
      }
      if !InRun(run, player, row[j]) {
        return Ok(j);
      }
      j := j + 1;
    }
  }

  /** `valid_pos_in_row`. */
  method ValidPosInRow(row: seq<char>, player: char) returns (r: Result<seq<nat>>)
    ensures r == PosInRow(row, player)
  {
    var i := 0;
    while i < |row| && row[i] == Empty
      invariant i <= |row| && RunEnd(row, i, Empties, player) == RunEnd(row, 0, Empties, player)
      decreases |row| - i
    {
      i := i + 1;
    }
    assert i == RunEnd(row, 0, Empties, player);
    if i == |row| {
      return Ok([]);
    }
    var positions: seq<nat> := [];
    if row[i] != player && i > 0 {
      var placement := i - 1;
      var end := SkipRun(row, i, Opponents, player);
      if end.Panic? {
        return Panic;
      }
      assert PosInRow(row, player) == if row[end.value] == player then Ok([i - 1]) else Ok([]);
      if row[end.value] == player {
        positions := positions + [placement];
        assert positions == [i - 1];
      }
    } else {
      var end := SkipRun(row, i, Own, player);
      if end.Panic? {
        return Panic;
      }
      if row[end.value] != Empty {
        var last := SkipRun(row, end.value, Opponents, player);
        if last.Panic? {
          return Panic;
        }
        assert PosInRow(row, player) == if row[last.value] == Empty then Ok([last.value]) else Ok([]);
        if row[last.value] == Empty {
          positions := positions + [last.value];
          assert positions == [last.value];
        }
      } else {
        assert PosInRow(row, player) == Ok([]);
      }
    }
    return Ok(positions);
  }

  /** When the first piece of the row is an opponent's with an empty square
      before it, the scan gives that square exactly when the opponent run
      from the piece ends on a piece of `player`, and panics exactly when
      the run reaches the end of the row. */
  lemma OpponentFirst(row: seq<char>, player: char, k: nat)
    requires k == RunEnd(row, 0, Empties, player) && 0 < k < |row| && row[k] != player
    ensures PosInRow(row, player) == Ok([k - 1]) <==>
      exists j :: k < j < |row| && row[j] == player && forall m :: k <= m < j ==> InRun(Opponents, player, row[m])
    ensures PosInRow(row, player).Panic? <==> forall m :: k <= m < |row| ==> InRun(Opponents, player, row[m])
  {
    var e := RunEnd(row, k, Opponents, player);
    if e < |row| && row[e] != player {
      forall j | k < j < |row| && row[j] == player
        ensures !forall m :: k <= m < j ==> InRun(Opponents, player, row[m])
      {
        if e < j {
          assert !InRun(Opponents, player, row[e]);
        }
      }
    }
  }

  /** Placing `player`'s piece on square `i` of the row captures: the square
      is empty, and a line of one or more opponent pieces runs from it, to the
      right or to the left, to a piece of `player`. */
  ghost predicate Brackets(row: seq<char>, i: nat, player: char) {
    i < |row| && row[i] == Empty &&
    ((exists j :: i + 1 < j < |row| && row[j] == player &&
        forall m :: i < m < j ==> InRun(Opponents, player, row[m])) ||
     (exists j :: 0 <= j && j + 1 < i && row[j] == player &&
        forall m :: j < m < i ==> InRun(Opponents, player, row[m])))
  }

  /** The first square of the row holds an opponent piece. */
  predicate OpensWithOpponent(row: seq<char>, player: char) {
    |row| > 0 && InRun(Opponents, player, row[0])
  }

  /** The square the scan gives is one where `player` captures, unless the
      row opens with an opponent piece. */
  lemma PosInRowSound(row: seq<char>, player: char, i: nat)
    requires PosInRow(row, player) == Ok([i]) && !OpensWithOpponent(row, player)
    ensures Brackets(row, i, player)
  {
    var k := RunEnd(row, 0, Empties, player);
    if row[k] != player && k > 0 {
      var j := RunEnd(row, k, Opponents, player);
      assert i + 1 < j && row[j] == player;
    } else {
      var j := RunEnd(row, k, Own, player);
      assert k < j && row[j - 1] == player;
      assert j - 1 + 1 < i;
    }
  }

  /** A row that opens with an opponent piece is scanned as though it opened
      with a run of `player`'s pieces: the empty square that ends the opening
      opponent run is given, although no piece of `player` closes that run. */
  lemma OpensWithOpponentScan(row: seq<char>, player: char)
    requires OpensWithOpponent(row, player)
    ensures var l := RunEnd(row, 0, Opponents, player);
      PosInRow(row, player) == if l == |row| then Panic else if row[l] == Empty then Ok([l]) else Ok([])
  {
    assert RunEnd(row, 0, Empties, player) == 0;
    assert RunEnd(row, 0, Own, player) == 0;
  }

  /** For instance, a black scan of the row `w e` gives square 1, where black
      captures nothing. */
  lemma OpensWithOpponentExample()
    ensures PosInRow(['w', 'e'], 'b') == Ok([1])
    ensures !Brackets(['w', 'e'], 1, 'b')
  {
    OpensWithOpponentScan(['w', 'e'], 'b');
    assert RunEnd(['w', 'e'], 0, Opponents, 'b') == 1 by {
      assert RunEnd(['w', 'e'], 1, Opponents, 'b') == 1;
    }
  }

  // ---------------------------------------------------------------------------
  // Scanning the board

  /** The moves of `player` at row `row` for the squares `ps` the scan gave. */
  function MovesOnRow(player: char, row: nat, ps: seq<nat>): (ms: seq<Move>)
    ensures |ms| == |ps| && forall k :: 0 <= k < |ps| ==> ms[k] == Move(player, row, ps[k])
  {
    seq(|ps|, k requires 0 <= k < |ps| => Move(player, row, ps[k]))
  }

  /** What `gen_valid_moves_helper` computes on the first `n` rows: the moves
      the scan gives, row after row, or a panic when a row's scan panics. */
  function RowMoves(cells: seq<seq<char>>, player: char, n: nat): Result<seq<Move>>
    requires n <= |cells|
  {
    if n == 0 then Ok([])
    else
      match RowMoves(cells, player, n - 1)
      case Panic => Panic
      case Ok(ms) =>
        match PosInRow(cells[n - 1], player)
        case Panic => Panic
        case Ok(ps) => Ok(ms + MovesOnRow(player, n - 1, ps))
  }

  /** A panic in the first `n` rows is a panic of the whole scan. */
  lemma {:induction false} PanicPersists(cells: seq<seq<char>>, player: char, n: nat, m: nat)
    requires n <= m <= |cells| && RowMoves(cells, player, n).Panic?
    ensures RowMoves(cells, player, m).Panic?
    decreases m - n
  {
    if n < m {
      PanicPersists(cells, player, n, m - 1);
    }
  }

  /** `ms` holds, in row order, one move of `player` for each square the
      scan of one of the first `n` rows gives, and nothing else. */
  ghost predicate ScannedRows(cells: seq<seq<char>>, player: char, n: nat, ms: seq<Move>)
    requires n <= |cells|
  {
    (forall m :: m in ms <==> m.player == player && m.row < n && PosInRow(cells[m.row], player) == Ok([m.col])) &&
    (forall a, b :: 0 <= a < b < |ms| ==> ms[a].row < ms[b].row)
  }

  lemma ScannedRowsStep(cells: seq<seq<char>>, player: char, n: nat, ms: seq<Move>, ps: seq<nat>)
    requires 0 < n <= |cells| && ScannedRows(cells, player, n - 1, ms)
    requires PosInRow(cells[n - 1], player) == Ok(ps)
    ensures ScannedRows(cells, player, n, ms + MovesOnRow(player, n - 1, ps))
  {
    var here := MovesOnRow(player, n - 1, ps);
    forall m: Move
      ensures m in ms + here <==> m.player == player && m.row < n && PosInRow(cells[m.row], player) == Ok([m.col])
    {
      if m.row == n - 1 && m.player == player && PosInRow(cells[m.row], player) == Ok([m.col]) {
        assert here[0] == m;
      }
    }
    forall a | 0 <= a < |ms|
      ensures ms[a].row < n - 1
    {
      assert ms[a] in ms;
    }
  }

  /** The scan of the first `n` rows succeeds exactly when no row's scan
      panics, and then holds what `ScannedRows` says. */
  lemma {:induction false} RowMovesCharacterised(cells: seq<seq<char>>, player: char, n: nat)
    requires n <= |cells|
    ensures RowMoves(cells, player, n).Ok? <==> forall i :: 0 <= i < n ==> PosInRow(cells[i], player).Ok?
    ensures RowMoves(cells, player, n).Ok? ==> ScannedRows(cells, player, n, RowMoves(cells, player, n).value)
  {
    if n > 0 {
      RowMovesCharacterised(cells, player, n - 1);
      var r := PosInRow(cells[n - 1], player);
      if RowMoves(cells, player, n - 1).Ok? && r.Ok? {
        ScannedRowsStep(cells, player, n, RowMoves(cells, player, n - 1).value, r.value);
      }
    }
  }

  /** The inner loop of `gen_valid_moves_helper`: a move of `player` at row
      `row` is pushed for each square in `ps`. */
  method PushRowMoves(moves: seq<Move>, player: char, row: nat, ps: seq<nat>) returns (moves': seq<Move>)
    ensures moves' == moves + MovesOnRow(player, row, ps)
  {
    moves' := moves;
    for k := 0 to |ps|
      invariant moves' == moves + MovesOnRow(player, row, ps[..k])
    {
      moves' := moves' + [Move(player, row, ps[k])];
    }
    assert ps[..|ps|] == ps;
  }

  /** `gen_valid_moves_helper`. */
  method GenValidMovesHelper(b: Board, player: char) returns (r: Result<seq<Move>>)
    ensures r == RowMoves(b.cells, player, |b.cells|)
  {
    var moves: seq<Move> := [];
    for rowNumber := 0 to |b.cells|
      invariant RowMoves(b.cells, player, rowNumber) == Ok(moves)
    {
      var positions := ValidPosInRow(b.cells[rowNumber], player);
      if positions.Panic? {
        PanicPersists(b.cells, player, rowNumber + 1, |b.cells|);
        return Panic;
      }
      moves := PushRowMoves(moves, player, rowNumber, positions.value);
    }
    r := Ok(moves);
  }

  /** The moves `ms` with row and column exchanged. */
  function Exchanged(ms: seq<Move>): (rs: seq<Move>)
    ensures |rs| == |ms| && forall k :: 0 <= k < |ms| ==> rs[k] == Move(ms[k].player, ms[k].col, ms[k].row)
  {
    seq(|ms|, k requires 0 <= k < |ms| => Move(ms[k].player, ms[k].col, ms[k].row))
  }

  /** What `gen_valid_moves` returns: the moves the scan finds in the rows,
      then those it finds in the rows of the transposed board with row and
      column exchanged; a panic in either scan is a panic. */
  function ValidMoves(b: Board, player: char): Result<seq<Move>>
    requires Transposable(b)
  {
    var rows := RowMoves(b.cells, player, |b.cells|);
    var t := Transpose(b);
    var cols := RowMoves(t.cells, player, |t.cells|);
    if rows.Panic? || cols.Panic? then Panic else Ok(rows.value + Exchanged(cols.value))
  }

  /** The loop of `gen_valid_moves` that swaps the row and the column of
      every move in place. */
  method ExchangeAll(ms: seq<Move>) returns (moves: seq<Move>)
    ensures moves == Exchanged(ms)
  {
    moves := ms;
    for k := 0 to |moves|
      invariant |moves| == |ms|
      invariant moves[..k] == Exchanged(ms)[..k]
      invariant moves[k..] == ms[k..]
    {
      var temp := moves[k].row;
      moves := moves[k := moves[k].(row := moves[k].col)];
      moves := moves[k := moves[k].(col := temp)];
    }
    assert moves == moves[..|moves|];
    assert Exchanged(ms) == Exchanged(ms)[..|moves|];
  }

  /** `gen_valid_moves`: the row moves, then the moves of the transposed
      board, each of which has its row and column swapped in place. */
  method GenValidMoves(b: Board, player: char) returns (r: Result<seq<Move>>)
    requires Transposable(b)
    ensures r == ValidMoves(b, player)
  {
    var rowMoves := GenValidMovesHelper(b, player);
    if rowMoves.Panic? {
      return Panic;
    }
    var colMoves := GenValidMovesHelper(Transpose(b), player);
    if colMoves.Panic? {
      return Panic;
    }
    var moves := ExchangeAll(colMoves.value);
    return Ok(rowMoves.value + moves);
  }

  /** Column `c` of the board, top to bottom. */
  function Column(b: Board, c: nat): (col: seq<char>)
    requires Transposable(b) && c < |b.cells[0]|
    ensures |col| == |b.cells| && forall j :: 0 <= j < |b.cells| ==> col[j] == b.cells[j][c]
  {
    seq(|b.cells|, j requires 0 <= j < |b.cells| => b.cells[j][c])
  }

  /** `gen_valid_moves` succeeds exactly when no row's and no column's scan
      panics; it then holds a move of `player` for each square a row's scan
      gives and for each square a column's scan gives, and nothing else. */
  lemma ValidMovesCharacterised(b: Board, player: char)
    requires Transposable(b)
    ensures ValidMoves(b, player).Ok? <==>
      (forall i :: 0 <= i < |b.cells| ==> PosInRow(b.cells[i], player).Ok?) &&
      (forall c :: 0 <= c < |b.cells[0]| ==> PosInRow(Column(b, c), player).Ok?)
    ensures ValidMoves(b, player).Ok? ==> forall m :: m in ValidMoves(b, player).value <==>
      m.player == player &&
      ((m.row < |b.cells| && PosInRow(b.cells[m.row], player) == Ok([m.col])) ||
       (m.col < |b.cells[0]| && PosInRow(Column(b, m.col), player) == Ok([m.row])))
  {
    var t := Transpose(b);
    forall c | 0 <= c < |b.cells[0]|
      ensures t.cells[c] == Column(b, c)
    {
    }
    RowMovesCharacterised(b.cells, player, |b.cells|);
    RowMovesCharacterised(t.cells, player, |t.cells|);
    if ValidMoves(b, player).Ok? {
      var cols := RowMoves(t.cells, player, |t.cells|).value;
      forall m: Move
        ensures m in Exchanged(cols) <==>
          m.player == player && m.col < |b.cells[0]| && PosInRow(Column(b, m.col), player) == Ok([m.row])
      {
        var n := Move(m.player, m.col, m.row);
        if m in Exchanged(cols) {
          var k :| 0 <= k < |cols| && Exchanged(cols)[k] == m;
          assert cols[k] == n;
        }
        if n in cols {
          var k :| 0 <= k < |cols| && cols[k] == n;
          assert Exchanged(cols)[k] == m;
        }
      }
    }
  }

  /** Every move `gen_valid_moves` returns places a piece of `player` on an
      empty square of the board; it captures along its row or its column
      unless that line opens with an opponent piece. */
  lemma ValidMovesSound(b: Board, player: char)
    requires Transposable(b) && ValidMoves(b, player).Ok?
    ensures forall m :: m in ValidMoves(b, player).value ==>
      m.player == player && m.row < |b.cells| && m.col < |b.cells[m.row]| && b.cells[m.row][m.col] == Empty
    ensures forall m :: m in ValidMoves(b, player).value ==>
      (m.row < |b.cells| && (Brackets(b.cells[m.row], m.col, player) || OpensWithOpponent(b.cells[m.row], player))) ||
      (m.col < |b.cells[0]| && (Brackets(Column(b, m.col), m.row, player) || OpensWithOpponent(Column(b, m.col), player)))
  {
    ValidMovesCharacterised(b, player);
    forall m | m in ValidMoves(b, player).value
      ensures m.row < |b.cells| && m.col < |b.cells[m.row]| && b.cells[m.row][m.col] == Empty
      ensures (m.row < |b.cells| && (Brackets(b.cells[m.row], m.col, player) || OpensWithOpponent(b.cells[m.row], player))) ||
        (m.col < |b.cells[0]| && (Brackets(Column(b, m.col), m.row, player) || OpensWithOpponent(Column(b, m.col), player)))
    {
      if m.row < |b.cells| && PosInRow(b.cells[m.row], player) == Ok([m.col]) {
        assert m.col in PosInRow(b.cells[m.row], player).value;
        if !OpensWithOpponent(b.cells[m.row], player) {
          PosInRowSound(b.cells[m.row], player, m.col);
        }
      } else {
        var col := Column(b, m.col);
        assert m.row in PosInRow(col, player).value;
        if !OpensWithOpponent(col, player) {
          PosInRowSound(col, player, m.row);
        }
      }
    }
  }
}
