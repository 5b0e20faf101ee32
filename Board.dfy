/** The board of the row-scan move generator (src/board.rs): a grid of
    characters held as a sequence of rows, `'e'` marking an empty square.
    Unlike the position of the move generator it has no border ring and no
    side to move. */
module Board {
  const Empty: char := 'e'

  /** The bytes `read` treats specially: `'\n'` and `'e'`. */
  const NewlineByte: int := 10
  const EmptyByte: int := 101

  type Byte = b: int | 0 <= b < 256

  datatype Board = Board(cells: seq<seq<char>>)

  /** `add_piece` can write square (`row`, `col`) without indexing out of
      bounds: it compares both coordinates with the number of rows, so a row
      shorter than that must still reach column `col`. */
  predicate Fits(b: Board, row: nat, col: nat) {
    row < |b.cells| && col < |b.cells| ==> col < |b.cells[row]|
  }

  /** `add_piece`: a copy of the board with `piece` on square (`row`,
      `col`) when both are below the number of rows, and an unchanged copy
      otherwise. */
  function AddPiece(b: Board, row: nat, col: nat, piece: char): (r: Board)
    requires Fits(b, row, col)
    ensures |r.cells| == |b.cells|
    ensures forall i :: 0 <= i < |b.cells| ==> |r.cells[i]| == |b.cells[i]|
    ensures row < |b.cells| && col < |b.cells| ==> r.cells[row][col] == piece
    ensures forall i, j :: 0 <= i < |b.cells| && 0 <= j < |b.cells[i]| && (i != row || j != col) ==>
      r.cells[i][j] == b.cells[i][j]
    ensures !(row < |b.cells| && col < |b.cells|) ==> r == b
  {
    if row < |b.cells| && col < |b.cells| then Board(b.cells[row := b.cells[row][col := piece]]) else b
  }

  /** `empty_board`: `rows` rows of `cols` empty squares. */
  function EmptyBoard(rows: nat, cols: nat): (r: Board)
    ensures |r.cells| == rows
    ensures forall i :: 0 <= i < rows ==> |r.cells[i]| == cols && forall j :: 0 <= j < cols ==> r.cells[i][j] == Empty
  {
    Board(seq(rows, _ => seq(cols, _ => Empty)))
  }

  /** The board is `n` rows of `n` squares. */
  predicate Square(b: Board, n: nat) {
    |b.cells| == n && forall i :: 0 <= i < n ==> |b.cells[i]| == n
  }

  /** `start_board`: the empty 8x8 board with white on (3, 3) and (4, 4) and
      black on (3, 4) and (4, 3). */
  function StartBoard(): (r: Board)
    ensures Square(r, 8)
    ensures r.cells[3][3] == 'w' && r.cells[4][4] == 'w' && r.cells[3][4] == 'b' && r.cells[4][3] == 'b'
    ensures forall i, j :: 0 <= i < 8 && 0 <= j < 8 && !(3 <= i <= 4 && 3 <= j <= 4) ==> r.cells[i][j] == Empty
  {
    AddPiece(AddPiece(AddPiece(AddPiece(EmptyBoard(8, 8), 3, 3, 'w'), 3, 4, 'b'), 4, 3, 'b'), 4, 4, 'w')
  }

  // ---------------------------------------------------------------------------
  // Reading a board from text

  /** The square `read` has reached before byte `i` of `s`: a newline moves
      to the start of the next row, any other byte one column on. */
  function Cursor(s: seq<Byte>, i: nat): (nat, nat)
    requires i <= |s|
  {
    if i == 0 then (0, 0)
    else
      var rc := Cursor(s, i - 1);
      if s[i - 1] == NewlineByte then (rc.0 + 1, 0) else (rc.0, rc.1 + 1)
  }

  /** Square `x` comes strictly before square `y` in reading order. */
  predicate Before(x: (nat, nat), y: (nat, nat)) {
    x.0 < y.0 || (x.0 == y.0 && x.1 < y.1)
  }

  /** Every byte moves the cursor forward in reading order. */
  lemma {:induction false} CursorAdvances(s: seq<Byte>, i: nat, j: nat)
    requires i < j <= |s|
    ensures Before(Cursor(s, i), Cursor(s, j))
    decreases j - i
  {
    if j > i + 1 {
      CursorAdvances(s, i, j - 1);
    }
  }

  /** Byte `i` of `s` is written to square (`r`, `c`): it is neither a
      newline nor an `e`, and the cursor stands on that square. */
  predicate Writes(s: seq<Byte>, i: nat, r: nat, c: nat)
    requires i < |s|
  {
    s[i] != NewlineByte && s[i] != EmptyByte && Cursor(s, i) == (r, c)
  }

  /** No square is written twice. */
  lemma OneWriter(s: seq<Byte>, i: nat, j: nat, r: nat, c: nat)
    requires i < |s| && j < |s| && Writes(s, i, r, c) && Writes(s, j, r, c)
    ensures i == j
  {
    if i < j {
      CursorAdvances(s, i, j);
    } else if j < i {
      CursorAdvances(s, j, i);
    }
  }

  /** What square (`r`, `c`) holds once the first `n` bytes are read: the
      last byte written to it, or `e` when there is none. */
  function CellAfter(s: seq<Byte>, n: nat, r: nat, c: nat): char
    requires n <= |s|
  {
    if n == 0 then Empty
    else if Writes(s, n - 1, r, c) then s[n - 1] as char
    else CellAfter(s, n - 1, r, c)
  }

  /** A square holds the byte written to it, and `e` when no byte is. */
  lemma {:induction false} CellAfterCharacterised(s: seq<Byte>, n: nat, r: nat, c: nat)
    requires n <= |s|
    ensures forall i :: 0 <= i < n && Writes(s, i, r, c) ==> CellAfter(s, n, r, c) == s[i] as char
    ensures (forall i :: 0 <= i < n ==> !Writes(s, i, r, c)) ==> CellAfter(s, n, r, c) == Empty
  {
    if n > 0 {
      CellAfterCharacterised(s, n - 1, r, c);
      forall i | 0 <= i < n && Writes(s, i, r, c)
        ensures CellAfter(s, n, r, c) == s[i] as char
      {
        if Writes(s, n - 1, r, c) {
          OneWriter(s, i, n - 1, r, c);
        }
      }
    }
  }

  /** `read`: the bytes of `s` are laid out on an empty 8x8 board, a newline
      starting the next row; every byte other than a newline or `e` is put on
      the square the cursor has reached, and dropped when that square is off
      the board. The text must not be empty. */
  method Read(s: seq<Byte>) returns (b: Board)
    requires |s| > 0
    ensures Square(b, 8)
    ensures forall r, c :: 0 <= r < 8 && 0 <= c < 8 ==> b.cells[r][c] == CellAfter(s, |s|, r, c)
  {
    b := EmptyBoard(8, 8);
    var row, col := 0, 0;
    for i := 0 to |s|
      invariant Square(b, 8) && (row, col) == Cursor(s, i)
      invariant forall r, c :: 0 <= r < 8 && 0 <= c < 8 ==> b.cells[r][c] == CellAfter(s, i, r, c)
    {
      if s[i] == NewlineByte {
        row, col := row + 1, 0;
      } else {
        if s[i] != EmptyByte {
          b := AddPiece(b, row, col, s[i] as char);
        }
        col := col + 1;
      }
    }
  }

  // ---------------------------------------------------------------------------
  // Transposition

  /** `transpose` can read every column of the first row from every row. */
  predicate Transposable(b: Board) {
    |b.cells| > 0 && forall i :: 0 <= i < |b.cells| ==> |b.cells[0]| <= |b.cells[i]|
  }

  /** `transpose`: row `i` of the result is column `i` of the board, for
      each column of its first row. */
  function Transpose(b: Board): (t: Board)
    requires Transposable(b)
    ensures |t.cells| == |b.cells[0]|
    ensures forall i :: 0 <= i < |t.cells| ==>
      |t.cells[i]| == |b.cells| && forall j :: 0 <= j < |b.cells| ==> t.cells[i][j] == b.cells[j][i]
  {
    Board(seq(|b.cells[0]|, i requires 0 <= i < |b.cells[0]| =>
      seq(|b.cells|, j requires 0 <= j < |b.cells| => b.cells[j][i])))
  }

  /** All rows have the length of the first, which is not zero. */
  predicate Rectangular(b: Board) {
    |b.cells| > 0 && |b.cells[0]| > 0 && forall i :: 0 <= i < |b.cells| ==> |b.cells[i]| == |b.cells[0]|
  }

  /** Transposing a non-empty rectangular board twice gives it back. */
  lemma TransposeInvolution(b: Board)
    requires Rectangular(b)
    ensures Rectangular(Transpose(b))
    ensures Transpose(Transpose(b)) == b
  {
    var t := Transpose(b);
    var tt := Transpose(t);
    assert |tt.cells| == |b.cells|;
    forall i | 0 <= i < |b.cells|
      ensures tt.cells[i] == b.cells[i]
    {
      assert |tt.cells[i]| == |b.cells[i]|;
    }
  }

  /** On a square board, writing a square and transposing is transposing and
      writing the mirrored square. */
  lemma TransposeAddPiece(b: Board, n: nat, row: nat, col: nat, piece: char)
    requires n > 0 && Square(b, n)
    ensures Transposable(AddPiece(b, row, col, piece))
    ensures Transpose(AddPiece(b, row, col, piece)) == AddPiece(Transpose(b), col, row, piece)
  {
    var l := Transpose(AddPiece(b, row, col, piece));
    var r := AddPiece(Transpose(b), col, row, piece);
    assert |l.cells| == |r.cells| == n;
    forall i | 0 <= i < n
      ensures l.cells[i] == r.cells[i]
    {
      assert |l.cells[i]| == |r.cells[i]| == n;
    }
  }
}
