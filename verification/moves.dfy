/**
 * What a drop delivers, as a function of the tray and the board it finds, and
 * the conservation laws of the moves: a piece moved from the tray or from
 * another cell is neither lost nor duplicated.
 *
 * The drop handler of PuzzleView.swift checks the target cell, accepts the
 * drop, and later, on the main queue, resolves the dropped id: a piece in the
 * tray is placed on the target and removed from the tray; otherwise the first
 * board cell (row-major) holding the id is cleared and its piece placed on the
 * target, unless the target is by then occupied, in which case the piece is
 * put back. `Deliver` is that deferred step.
 */
module Moves {
  import opened Wrappers
  import opened Pieces
  import opened Trays
  import opened Boards

  /** Every piece of the puzzle, wherever it is: the tray and the board together. */
  function PoolOf(tray: seq<Piece>, board: Board): multiset<Piece>
  {
    multiset(tray) + multiset(Placed(board))
  }

  /** The tray and board after a delivery, whether a piece was placed, and whether the move was rolled back. */
  datatype Move = Move(tray: seq<Piece>, board: Board, placed: bool, refused: bool)

  /** The main-queue step of a drop of the piece with the given id onto cell (row, col). */
  function Deliver(tray: seq<Piece>, board: Board, id: int, row: nat, col: nat): (m: Move)
    requires InGrid(board, row, col)
    ensures |m.board| == |board| && forall i :: 0 <= i < |board| ==> |m.board[i]| == |board[i]|
    ensures board[row][col].None? ==> !m.refused
    ensures m.refused ==> m.tray == tray && m.board == board && !m.placed
  {
    match FirstWithId(tray, id)
    case Some(i) => Move(RemoveId(tray, id), Put(board, row, col, Some(tray[i])), true, false)
    case None =>
      match FirstCell(board, HoldsId(id))
      case None => Move(tray, board, false, false)
      case Some(src) =>
        var lifted := Put(board, src.row, src.col, None);
        if lifted[row][col].None? then
          Move(tray, Put(lifted, row, col, board[src.row][src.col]), true, false)
        else
          Move(tray, board, false, true)
  }

  /** Moving a piece from the tray onto an empty cell keeps every piece of the puzzle exactly once. */
  lemma MoveFromTray(tray: seq<Piece>, board: Board, p: Piece, row: nat, col: nat)
    requires p in tray && InGrid(board, row, col) && board[row][col].None?
    requires UniqueIds(PoolOf(tray, board))
    ensures PoolOf(RemoveId(tray, p.id), Put(board, row, col, Some(p))) == PoolOf(tray, board)
  {
    RemoveUnique(tray, p, multiset(Placed(board)));
    PlacedPut(board, row, col, Some(p));
  }

  /**
   * Automatic placement into an empty cell keeps every piece exactly once when
   * the piece comes from the tray.
   */
  lemma FillConserves(tray: seq<Piece>, board: Board, p: Piece, row: nat, col: nat)
    requires InGrid(board, row, col) && board[row][col].None?
    requires UniqueIds(PoolOf(tray, board))
    ensures p in tray ==> PoolOf(RemoveId(tray, p.id), Put(board, row, col, Some(p))) == PoolOf(tray, board)
  {
    if p in tray {
      MoveFromTray(tray, board, p, row, col);
    }
  }

  lemma TakeOutPutBack<T>(a: multiset<T>, x: multiset<T>)
    requires x <= a
    ensures a - x + x == a
  {
  }

  /** Lifting a piece off one cell and writing it into a cell that is then empty keeps the board's pieces. */
  lemma MoveOnBoard(board: Board, src: Cell, row: nat, col: nat)
    requires InGrid(board, src.row, src.col) && InGrid(board, row, col)
    requires Put(board, src.row, src.col, None)[row][col].None?
    ensures multiset(Placed(Put(Put(board, src.row, src.col, None), row, col, board[src.row][src.col]))) ==
      multiset(Placed(board))
  {
    var moved := multiset(Contents(board[src.row][src.col]));
    PlacedPut(board, src.row, src.col, None);
    PlacedPut(Put(board, src.row, src.col, None), row, col, board[src.row][src.col]);
    TakeOutPutBack(multiset(Placed(board)), moved);
  }

  /**
   * A delivery onto a cell that is still empty, or of an id that is not in the
   * tray, loses and duplicates no piece.
   */
  lemma DeliverConserves(tray: seq<Piece>, board: Board, id: int, row: nat, col: nat)
    requires InGrid(board, row, col) && UniqueIds(PoolOf(tray, board))
    requires board[row][col].None? || FirstWithId(tray, id).None?
    ensures var m := Deliver(tray, board, id, row, col);
      PoolOf(m.tray, m.board) == PoolOf(tray, board)
  {
    match FirstWithId(tray, id)
    case Some(i) =>
      MoveFromTray(tray, board, tray[i], row, col);
    case None =>
      match FirstCell(board, HoldsId(id))
      case None =>
      case Some(src) =>
        if Put(board, src.row, src.col, None)[row][col].None? {
          MoveOnBoard(board, src, row, col);
        }
  }

  lemma ReplaceOccupant<T>(t: multiset<T>, b: multiset<T>, p: T, o: T)
    requires p in t && o in b
    ensures (t - multiset{p}) + (b - multiset{o} + multiset{p}) == t + b - multiset{o}
  {
  }

  /**
   * The tray branch of the delivery does not look at the target again: when
   * the target was filled after the drop was accepted, the piece there is
   * overwritten and leaves the puzzle.
   */
  lemma DeliverOverwritesOccupant(tray: seq<Piece>, board: Board, id: int, row: nat, col: nat)
    requires InGrid(board, row, col) && UniqueIds(PoolOf(tray, board))
    requires board[row][col].Some? && FirstWithId(tray, id).Some?
    ensures var m := Deliver(tray, board, id, row, col);
      PoolOf(m.tray, m.board) == PoolOf(tray, board) - multiset{board[row][col].value}
  {
    var p := tray[FirstWithId(tray, id).value];
    var o := board[row][col].value;
    RemoveUnique(tray, p, multiset(Placed(board)));
    PlacedPut(board, row, col, Some(p));
    ReplaceOccupant(multiset(tray), multiset(Placed(board)), p, o);
  }

  /** With unique ids, no cell holds the id of a piece that is in the tray. */
  lemma TrayPieceNotOnBoard(tray: seq<Piece>, board: Board, p: Piece, r: nat, c: nat)
    requires p in tray && InGrid(board, r, c) && UniqueIds(PoolOf(tray, board))
    ensures !Hits(board[r][c], HoldsId(p.id))
  {
    PlacedPut(board, r, c, None);
    assert multiset(tray)[p] >= 1;
  }

  /** With unique ids, no other cell holds the id of the piece in cell src. */
  lemma BoardPieceInOneCell(board: Board, src: Cell, r: nat, c: nat, rest: multiset<Piece>)
    requires InGrid(board, src.row, src.col) && InGrid(board, r, c) && (r != src.row || c != src.col)
    requires board[src.row][src.col].Some? && UniqueIds(rest + multiset(Placed(board)))
    ensures !Hits(board[r][c], HoldsId(board[src.row][src.col].value.id))
  {
    var p := board[src.row][src.col].value;
    var lifted := Put(board, src.row, src.col, None);
    var all, left := multiset(Placed(board)), multiset(Placed(lifted));
    PlacedPut(board, src.row, src.col, None);
    assert left == all - multiset{p};
    PlacedPut(lifted, r, c, None);
    assert lifted[r][c] == board[r][c];
    if board[r][c].Some? {
      var q := board[r][c].value;
      assert q in left;
      assert (rest + all)[p] <= 1;
      assert q != p;
      assert q in rest + all && p in rest + all;
    }
  }

  /** A piece delivered from the tray ends on the target and nowhere else. */
  lemma DeliverFromTray(tray: seq<Piece>, board: Board, id: int, row: nat, col: nat)
    requires InGrid(board, row, col) && UniqueIds(PoolOf(tray, board))
    requires FirstWithId(tray, id).Some?
    ensures var m := Deliver(tray, board, id, row, col);
      m.placed && m.board[row][col].Some? && m.board[row][col].value.id == id &&
      (forall q :: q in m.tray ==> q.id != id) &&
      (forall r, c :: InGrid(m.board, r, c) && (r != row || c != col) ==> !Hits(m.board[r][c], HoldsId(id)))
  {
    var m := Deliver(tray, board, id, row, col);
    var p := tray[FirstWithId(tray, id).value];
    forall q | q in m.tray
      ensures q.id != id
    {
      assert multiset(m.tray)[q] > 0;
    }
    forall r, c | InGrid(m.board, r, c) && (r != row || c != col)
      ensures !Hits(m.board[r][c], HoldsId(id))
    {
      TrayPieceNotOnBoard(tray, board, p, r, c);
    }
  }

  /** A piece moved from another cell onto an empty target ends on the target and nowhere else. */
  lemma DeliverFromBoard(tray: seq<Piece>, board: Board, id: int, row: nat, col: nat)
    requires InGrid(board, row, col) && board[row][col].None? && UniqueIds(PoolOf(tray, board))
    requires FirstWithId(tray, id).None? && FirstCell(board, HoldsId(id)).Some?
    ensures var m := Deliver(tray, board, id, row, col);
      m.placed && m.board[row][col].Some? && m.board[row][col].value.id == id &&
      m.tray == tray &&
      (forall r, c :: InGrid(m.board, r, c) && (r != row || c != col) ==> !Hits(m.board[r][c], HoldsId(id)))
  {
    var m := Deliver(tray, board, id, row, col);
    var src := FirstCell(board, HoldsId(id)).value;
    forall r, c | InGrid(m.board, r, c) && (r != row || c != col)
      ensures !Hits(m.board[r][c], HoldsId(id))
    {
      if r != src.row || c != src.col {
        BoardPieceInOneCell(board, src, r, c, multiset(tray));
      }
    }
  }

  /** A delivery of an id that no piece has changes nothing. */
  lemma DeliverUnknownId(tray: seq<Piece>, board: Board, id: int, row: nat, col: nat)
    requires InGrid(board, row, col)
    requires forall p :: p in PoolOf(tray, board) ==> p.id != id
    ensures var m := Deliver(tray, board, id, row, col);
      !m.placed && m.tray == tray && m.board == board
  {
    match FirstCell(board, HoldsId(id))
    case None =>
    case Some(src) =>
      PlacedPut(board, src.row, src.col, None);
  }

  /**
   * A delivery onto an empty cell places a piece exactly when some piece of
   * the puzzle has the dropped id; it then sits on the target and nowhere
   * else, neither in the tray nor in another cell. Otherwise nothing changes.
   */
  lemma DeliverPlacesOnce(tray: seq<Piece>, board: Board, id: int, row: nat, col: nat)
    requires InGrid(board, row, col) && board[row][col].None?
    requires UniqueIds(PoolOf(tray, board))
    ensures var m := Deliver(tray, board, id, row, col);
      (m.placed <==> exists p :: p in PoolOf(tray, board) && p.id == id) &&
      (m.placed ==>
        m.board[row][col].Some? && m.board[row][col].value.id == id &&
        (forall q :: q in m.tray ==> q.id != id) &&
        (forall r, c :: InGrid(m.board, r, c) && (r != row || c != col) ==> !Hits(m.board[r][c], HoldsId(id)))) &&
      (!m.placed ==> m.tray == tray && m.board == board)
  {
    var pool := PoolOf(tray, board);
    if FirstWithId(tray, id).Some? {
      DeliverFromTray(tray, board, id, row, col);
      assert tray[FirstWithId(tray, id).value] in pool;
    } else if FirstCell(board, HoldsId(id)).Some? {
      var src := FirstCell(board, HoldsId(id)).value;
      DeliverFromBoard(tray, board, id, row, col);
      PlacedPut(board, src.row, src.col, None);
      assert board[src.row][src.col].value in pool;
      forall q | q in Deliver(tray, board, id, row, col).tray
        ensures q.id != id
      {
      }
    } else {
      forall p | p in pool
        ensures p.id != id
      {
        if p !in tray {
          PlacedInCell(board, p);
        }
      }
      DeliverUnknownId(tray, board, id, row, col);
    }
  }

  /**
   * When the puzzle holds rows * cols pieces and the board is full, the tray
   * is empty: a reset after a misfilled board loses nothing even though it
   * overwrites the tray.
   */
  lemma FullBoardEmptiesTray(tray: seq<Piece>, board: Board, rows: nat, cols: nat)
    requires IsGrid(board, rows, cols) && !AnyEmpty(board)
    requires |PoolOf(tray, board)| == rows * cols
    ensures tray == []
  {
    PlacedFull(board, rows, cols);
  }
}
