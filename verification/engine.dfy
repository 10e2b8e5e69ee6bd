/**
 * The puzzle state engine of `PuzzleView` (PuzzleView.swift): the tray of
 * unplaced pieces, the board, and the two outcome flags, with the operations
 * that prepare, move, check and reset them.
 */
module Engine {
  import opened Wrappers
  import opened Pieces
  import opened Trays
  import opened Boards
  import opened Moves

  /**
   * The nested loop of `preparePieces`: tile width and height by integer
   * division, then for each cell in row-major order the crop rectangle, and a
   * piece stamped with that cell when the crop succeeds.
   */
  method CutPieces(bm: Bitmap, rows: nat, cols: nat) returns (newPieces: seq<Piece>)
    requires rows > 0 && cols > 0
    ensures newPieces == Cut(bm, rows, cols)
  {
    var width := bm.width / cols;
    var height := bm.height / rows;
    newPieces := [];
    var row := 0;
    while row < rows
      invariant 0 <= row <= rows
      invariant newPieces == CutRows(bm, rows, cols, row)
    {
      var col := 0;
      while col < cols
        invariant 0 <= col <= cols
        invariant newPieces == CutRows(bm, rows, cols, row) + CutRow(bm, rows, cols, row, col, |CutRows(bm, rows, cols, row)|)
      {
        ghost var done := CutRows(bm, rows, cols, row);
        ghost var inRow := CutRow(bm, rows, cols, row, col, |done|);
        var rect := Rect(col * width, row * height, width, height);
        assert rect == TileRect(bm, rows, cols, row, col);
        if bm.croppable(rect) {
          newPieces := newPieces + [Piece(|newPieces|, rect, row, col)];
        }
        assert newPieces == done + (inRow + CropTile(bm, rows, cols, row, col, |done| + |inRow|));
        col := col + 1;
      }
      row := row + 1;
    }
  }

  /** A grid dimension: at least one row or column. */
  type Dimension = n: nat | n > 0 witness 1

  class PuzzleEngine {
    /** The grid is fixed at 3 rows of 4 cells; the proofs hold for any size. */
    const rows: Dimension
    const cols: Dimension

    /** The pieces not yet placed (`pieces`). */
    var tray: seq<Piece>
    /** The board (`placedPieces`). */
    var board: Board
    var isCompleted: bool
    var isFailed: bool
    /** The cell highlighted after a refused drop (`invalidDropPosition`). */
    var invalidDropPosition: Option<Cell>

    /** The board has the puzzle's shape, so every cell the view shows can be read. */
    ghost predicate Shaped()
      reads this`board
    {
      IsGrid(board, rows, cols)
    }

    /** Every piece of the puzzle, in the tray or on the board. */
    ghost function Pool(): multiset<Piece>
      reads this`tray, this`board
    {
      PoolOf(tray, board)
    }

    /** The engine invariant: a well-shaped board, and each piece present once with its own id. */
    ghost predicate Valid()
      reads this`tray, this`board
    {
      Shaped() && UniqueIds(Pool())
    }

    /** The flags after `checkCompletion` ran on the current board, given their values before. */
    ghost predicate Checked(wasCompleted: bool, wasFailed: bool)
      reads this`board, this`isCompleted, this`isFailed
    {
      isCompleted == (wasCompleted || AllCorrect(board)) &&
      isFailed == (wasFailed || (!AllCorrect(board) && !AnyEmpty(board)))
    }

    /** The view's initial state, before the pieces are prepared. */
    constructor ()
      ensures rows == 3 && cols == 4
      ensures tray == [] && board == []
      ensures !isCompleted && !isFailed && invalidDropPosition == None
    {
      rows, cols := 3, 4;
      tray, board := [], [];
      isCompleted, isFailed := false, false;
      invalidDropPosition := None;
    }

    /**
     * `preparePieces`: if the image decodes, cut it into tiles row by row,
     * empty the board and deal the pieces into the tray in shuffled order.
     * An image that does not decode changes nothing.
     */
    method PreparePieces(image: Option<Bitmap>, draws: seq<nat>)
      modifies this`tray, this`board
      ensures image.None? ==> tray == old(tray) && board == old(board)
      ensures image.Some? ==>
        Valid() && board == EmptyGrid(rows, cols) &&
        tray == Shuffled(Cut(image.value, rows, cols), draws) &&
        Pool() == multiset(Cut(image.value, rows, cols))
    {
      if image.None? {
        return;
      }
      var bm := image.value;
      var newPieces := CutPieces(bm, rows, cols);
      assert newPieces == Cut(bm, rows, cols);
      assert UniqueIds(multiset(newPieces)) by {
        CutDistinctIds(bm, rows, cols);
        DistinctIdsUnique(newPieces);
      }
      board := EmptyGrid(rows, cols);
      tray := Shuffled(newPieces, draws);
      assert Placed(board) == [] by {
        PlacedEmpty(board);
      }
    }

    /**
     * `checkCompletion`: scan every cell; the board is solved when every cell
     * holds its own piece, misfilled when no cell is empty but some piece is
     * misplaced. Solved raises `isCompleted`, misfilled raises `isFailed`;
     * neither flag is ever lowered here.
     */
    method CheckCompletion()
      requires Shaped()
      modifies this`isCompleted, this`isFailed
      ensures Checked(old(isCompleted), old(isFailed))
      ensures AnyEmpty(board) ==> isCompleted == old(isCompleted) && isFailed == old(isFailed)
      ensures !old(isCompleted) && !old(isFailed) ==> !(isCompleted && isFailed)
    {
      var allCorrect := true;
      var anyEmpty := false;
      var row := 0;
      while row < rows
        invariant 0 <= row <= rows
        invariant allCorrect <==> forall r, c :: 0 <= r < row && 0 <= c < cols ==> CorrectAt(board, r, c)
        invariant anyEmpty <==> exists r, c :: 0 <= r < row && 0 <= c < cols && board[r][c].None?
        invariant anyEmpty ==> !allCorrect
      {
        var col := 0;
        while col < cols
          invariant 0 <= col <= cols
          invariant allCorrect <==>
            (forall r, c :: 0 <= r < row && 0 <= c < cols ==> CorrectAt(board, r, c)) &&
            (forall c :: 0 <= c < col ==> CorrectAt(board, row, c))
          invariant anyEmpty <==>
            (exists r, c :: 0 <= r < row && 0 <= c < cols && board[r][c].None?) ||
            (exists c :: 0 <= c < col && board[row][c].None?)
          invariant anyEmpty ==> !allCorrect
        {
          ghost var before := allCorrect;
          match board[row][col] {
            case Some(piece) =>
              if piece.correctRow != row || piece.correctCol != col {
                allCorrect := false;
              }
            case None =>
              allCorrect := false;
              anyEmpty := true;
          }
          assert allCorrect <==> before && CorrectAt(board, row, col);
          col := col + 1;
        }
        row := row + 1;
      }
      if allCorrect {
        isCompleted := true;
      } else if !anyEmpty && !allCorrect {
        isFailed := true;
      }
    }

    /** `placePiece`: write the piece (if there is one) into the cell, then check completion. */
    method PlacePiece(piece: Option<Piece>, row: nat, col: nat)
      requires Shaped() && row < rows && col < cols
      modifies this`board, this`isCompleted, this`isFailed
      ensures Shaped()
      ensures piece.None? ==>
        board == old(board) && isCompleted == old(isCompleted) && isFailed == old(isFailed)
      ensures piece.Some? ==>
        board == Put(old(board), row, col, piece) && Checked(old(isCompleted), old(isFailed))
    {
      if piece.None? {
        return;
      }
      board := Put(board, row, col, piece);
      CheckCompletion();
    }

    /**
     * The main-queue closure of `handleDrop`: place the tray piece with the
     * id on the target and drop it from the tray; otherwise lift the piece
     * with the id from the first cell holding it and place it on the target,
     * or put it back and highlight the target if the target is occupied.
     */
    method DeliverDrop(id: int, row: nat, col: nat)
      requires Shaped() && row < rows && col < cols
      modifies this
      ensures Shaped()
      ensures var m := Deliver(old(tray), old(board), id, row, col);
        tray == m.tray && board == m.board &&
        (if m.placed then Checked(old(isCompleted), old(isFailed))
         else isCompleted == old(isCompleted) && isFailed == old(isFailed)) &&
        invalidDropPosition == (if m.refused then Some(Cell(row, col)) else old(invalidDropPosition))
    {
      ghost var board0 := board;
      var inTray := FirstWithId(tray, id);
      if inTray.Some? {
        PlacePiece(Some(tray[inTray.value]), row, col);
        tray := RemoveId(tray, id);
        return;
      }
      var src := FindFirst(board, HoldsId(id));
      if src.Some? {
        var r, c := src.value.row, src.value.col;
        var movedPiece := board[r][c];
        board := Put(board, r, c, None);
        if board[row][col].None? {
          PlacePiece(movedPiece, row, col);
        } else {
          board := Put(board, r, c, movedPiece);
          PutBack(board0, r, c);
          invalidDropPosition := Some(Cell(row, col));
        }
      }
    }

    /**
     * `handleDrop`, with the dropped id delivered at once: a drop onto an
     * occupied cell is refused, highlights that cell and changes nothing
     * else; a drop onto an empty cell is accepted and delivered.
     */
    method HandleDrop(id: int, row: nat, col: nat) returns (accepted: bool)
      requires Valid() && row < rows && col < cols
      modifies this
      ensures Valid() && Pool() == old(Pool())
      ensures accepted == old(board)[row][col].None?
      ensures !accepted ==>
        tray == old(tray) && board == old(board) &&
        isCompleted == old(isCompleted) && isFailed == old(isFailed) &&
        invalidDropPosition == Some(Cell(row, col))
      ensures accepted ==>
        invalidDropPosition == old(invalidDropPosition) &&
        var m := Deliver(old(tray), old(board), id, row, col);
        tray == m.tray && board == m.board &&
        (if m.placed then Checked(old(isCompleted), old(isFailed))
         else isCompleted == old(isCompleted) && isFailed == old(isFailed))
      ensures accepted && (exists p :: p in old(Pool()) && p.id == id) ==>
        board[row][col].Some? && board[row][col].value.id == id &&
        (forall q :: q in tray ==> q.id != id) &&
        (forall r, c :: InGrid(board, r, c) && (r != row || c != col) ==> !Hits(board[r][c], HoldsId(id)))
      ensures accepted && !(exists p :: p in old(Pool()) && p.id == id) ==>
        tray == old(tray) && board == old(board) &&
        isCompleted == old(isCompleted) && isFailed == old(isFailed)
    {
      if board[row][col].Some? {
        invalidDropPosition := Some(Cell(row, col));
        return false;
      }
      DeliverPlacesOnce(tray, board, id, row, col);
      DeliverConserves(tray, board, id, row, col);
      DeliverDrop(id, row, col);
      return true;
    }

    /**
     * `placePieceAutomatically`: put the piece into the first empty cell in
     * row-major order, take its id out of the tray and check completion; on
     * a full board nothing happens.
     */
    method PlacePieceAutomatically(piece: Piece)
      requires Valid()
      modifies this`tray, this`board, this`isCompleted, this`isFailed
      ensures Shaped()
      ensures FirstCell(old(board), EmptyCell).None? ==>
        tray == old(tray) && board == old(board) &&
        isCompleted == old(isCompleted) && isFailed == old(isFailed)
      ensures FirstCell(old(board), EmptyCell).Some? ==>
        var cell := FirstCell(old(board), EmptyCell).value;
        board == Put(old(board), cell.row, cell.col, Some(piece)) &&
        tray == RemoveId(old(tray), piece.id) &&
        Checked(old(isCompleted), old(isFailed))
      ensures piece in old(tray) ==> Valid() && Pool() == old(Pool())
    {
      var empty := FindFirst(board, EmptyCell);
      if empty.Some? {
        var cell := empty.value;
        FillConserves(tray, board, piece, cell.row, cell.col);
        board := Put(board, cell.row, cell.col, Some(piece));
        tray := RemoveId(tray, piece.id);
        CheckCompletion();
        assert piece in old(tray) ==> Pool() == old(Pool());
      }
    }

    /**
     * `resetPuzzle`: the pieces on the board, in row-major order and then
     * shuffled, become the tray (which is overwritten, not appended to), and
     * the board is emptied.
     */
    method ResetPuzzle(draws: seq<nat>)
      requires Valid()
      modifies this`tray, this`board
      ensures Valid()
      ensures board == EmptyGrid(rows, cols)
      ensures tray == Shuffled(Placed(old(board)), draws)
      ensures Pool() == multiset(Placed(old(board)))
      ensures old(tray) == [] ==> Pool() == old(Pool())
    {
      ghost var pool := Pool();
      var onBoard := Placed(board);
      UniqueSub(multiset(onBoard), pool);
      tray := Shuffled(onBoard, draws);
      board := EmptyGrid(rows, cols);
      PlacedEmpty(board);
      assert Pool() == multiset(onBoard);
    }
  }
}
