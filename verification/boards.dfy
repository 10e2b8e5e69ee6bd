/**
 * The board (`placedPieces` in PuzzleView.swift): a grid of cells, each empty
 * or holding one piece; the row-major searches the view runs over it; the
 * pieces on it in row-major order (`flatMap { $0 }.compactMap { $0 }`); and the
 * predicates `checkCompletion` decides between.
 */
module Boards {
  import opened Wrappers
  import opened Pieces

  type Board = seq<seq<Option<Piece>>>

  datatype Cell = Cell(row: nat, col: nat)

  /** The board has `rows` rows of `cols` cells each. */
  predicate IsGrid(b: Board, rows: nat, cols: nat)
  {
    |b| == rows && forall r :: 0 <= r < |b| ==> |b[r]| == cols
  }

  predicate InGrid(b: Board, r: int, c: int)
  {
    0 <= r < |b| && 0 <= c < |b[r]|
  }

  /** `Array(repeating: Array(repeating: nil, count: cols), count: rows)`. */
  function EmptyGrid(rows: nat, cols: nat): (b: Board)
    ensures IsGrid(b, rows, cols)
    ensures forall r, c :: InGrid(b, r, c) ==> b[r][c].None?
  {
    seq(rows, _ => seq(cols, _ => None))
  }

  /** `placedPieces[r][c] = x`: cell (r, c) holds x, every other cell and the shape are unchanged. */
  function Put(b: Board, r: nat, c: nat, x: Option<Piece>): (b': Board)
    requires InGrid(b, r, c)
    ensures |b'| == |b| && forall i :: 0 <= i < |b| ==> |b'[i]| == |b[i]|
    ensures b'[r][c] == x
    ensures forall i, j :: InGrid(b, i, j) && (i != r || j != c) ==> b'[i][j] == b[i][j]
  {
    b[r := b[r][c := x]]
  }

  /** Clearing a cell and writing its piece back restores the board (the roll-back of a refused move). */
  lemma PutBack(b: Board, r: nat, c: nat)
    requires InGrid(b, r, c)
    ensures Put(Put(b, r, c, None), r, c, b[r][c]) == b
  {
    assert b[r][c := None][c := b[r][c]] == b[r];
  }

  /** The piece in a cell, as a sequence of zero or one pieces. */
  function Contents(o: Option<Piece>): seq<Piece>
  {
    if o.Some? then [o.value] else []
  }

  /** `compactMap { $0 }` on one row. */
  function Compact(row: seq<Option<Piece>>): seq<Piece>
  {
    if row == [] then [] else Contents(row[0]) + Compact(row[1..])
  }

  /** The pieces on the board in row-major order: `flatMap { $0 }.compactMap { $0 }`. */
  function Placed(b: Board): seq<Piece>
  {
    if b == [] then [] else Compact(b[0]) + Placed(b[1..])
  }

  /** Adding a multiset in front commutes with taking out a part and adding another. */
  lemma ReplaceInSum<T>(a: multiset<T>, r: multiset<T>, out: multiset<T>, into: multiset<T>)
    requires out <= r
    ensures out <= a + r
    ensures a + (r - out + into) == (a + r) - out + into
  {
  }

  lemma ReplaceHead<T>(head: multiset<T>, r: multiset<T>, into: multiset<T>)
    ensures head <= head + r
    ensures into + r == (head + r) - head + into
  {
  }

  lemma {:induction false} CompactUpdate(row: seq<Option<Piece>>, c: nat, x: Option<Piece>)
    requires c < |row|
    ensures multiset(Contents(row[c])) <= multiset(Compact(row))
    ensures multiset(Compact(row[c := x])) ==
      multiset(Compact(row)) - multiset(Contents(row[c])) + multiset(Contents(x))
  {
    var row' := row[c := x];
    var head, tail := multiset(Contents(row[0])), multiset(Compact(row[1..]));
    assert multiset(Compact(row)) == head + tail;
    if c == 0 {
      assert multiset(Compact(row')) == multiset(Contents(x)) + tail by {
        assert row'[1..] == row[1..];
      }
      ReplaceHead(head, tail, multiset(Contents(x)));
    } else {
      assert multiset(Compact(row')) == head + multiset(Compact(row[1..][c - 1 := x])) by {
        assert row'[1..] == row[1..][c - 1 := x];
      }
      CompactUpdate(row[1..], c - 1, x);
      ReplaceInSum(head, tail, multiset(Contents(row[c])), multiset(Contents(x)));
    }
  }

  /** Replacing a part of a multiset by another part within a larger one. */
  lemma ReplaceWithin<T>(all: multiset<T>, part: multiset<T>, out: multiset<T>, into: multiset<T>)
    requires part <= all && out <= part
    ensures out <= all
    ensures all - part + (part - out + into) == all - out + into
  {
  }

  /** Replacing row r replaces that row's pieces among the board's pieces. */
  lemma {:induction false} PlacedRow(b: Board, r: nat, row: seq<Option<Piece>>)
    requires r < |b|
    ensures multiset(Compact(b[r])) <= multiset(Placed(b))
    ensures multiset(Placed(b[r := row])) ==
      multiset(Placed(b)) - multiset(Compact(b[r])) + multiset(Compact(row))
  {
    var b' := b[r := row];
    var head, tail := multiset(Compact(b[0])), multiset(Placed(b[1..]));
    assert multiset(Placed(b)) == head + tail;
    if r == 0 {
      assert multiset(Placed(b')) == multiset(Compact(row)) + tail by {
        assert b'[1..] == b[1..];
      }
      ReplaceHead(head, tail, multiset(Compact(row)));
    } else {
      assert multiset(Placed(b')) == head + multiset(Placed(b[1..][r - 1 := row])) by {
        assert b'[1..] == b[1..][r - 1 := row];
      }
      PlacedRow(b[1..], r - 1, row);
      ReplaceInSum(head, tail, multiset(Compact(b[r])), multiset(Compact(row)));
    }
  }

  /**
   * Writing x into cell (r, c) takes the piece that was there (if any) off the
   * board and puts x (if any) on it; no other piece comes or goes.
   */
  lemma PlacedPut(b: Board, r: nat, c: nat, x: Option<Piece>)
    requires InGrid(b, r, c)
    ensures multiset(Contents(b[r][c])) <= multiset(Placed(b))
    ensures multiset(Placed(Put(b, r, c, x))) ==
      multiset(Placed(b)) - multiset(Contents(b[r][c])) + multiset(Contents(x))
  {
    PlacedRow(b, r, b[r][c := x]);
    CompactUpdate(b[r], c, x);
    ReplaceWithin(multiset(Placed(b)), multiset(Compact(b[r])), multiset(Contents(b[r][c])), multiset(Contents(x)));
  }

  /** A piece is on the board only if some cell holds it. */
  lemma {:induction false} PlacedInCell(b: Board, p: Piece)
    requires p in Placed(b)
    ensures exists r, c :: InGrid(b, r, c) && b[r][c] == Some(p)
  {
    assert b != [];
    if p in Compact(b[0]) {
      var c := CompactInCell(b[0], p);
      assert InGrid(b, 0, c);
    } else {
      PlacedInCell(b[1..], p);
      var r, c :| InGrid(b[1..], r, c) && b[1..][r][c] == Some(p);
      assert InGrid(b, r + 1, c) && b[r + 1][c] == Some(p);
    }
  }

  lemma {:induction false} CompactInCell(row: seq<Option<Piece>>, p: Piece) returns (c: nat)
    requires p in Compact(row)
    ensures c < |row| && row[c] == Some(p)
  {
    assert row != [];
    if row[0] == Some(p) {
      c := 0;
    } else {
      c := CompactInCell(row[1..], p);
      c := c + 1;
    }
  }

  /** A board whose cells are all empty holds no pieces. */
  lemma {:induction false} PlacedEmpty(b: Board)
    requires forall r, c :: InGrid(b, r, c) ==> b[r][c].None?
    ensures Placed(b) == []
  {
    if b != [] {
      assert forall c :: 0 <= c < |b[0]| ==> b[0][c].None? by {
        forall c | 0 <= c < |b[0]| ensures b[0][c].None? {
          assert InGrid(b, 0, c);
        }
      }
      CompactEmpty(b[0]);
      forall r, c | InGrid(b[1..], r, c) ensures b[1..][r][c].None? {
        assert InGrid(b, r + 1, c);
      }
      PlacedEmpty(b[1..]);
    }
  }

  lemma {:induction false} CompactEmpty(row: seq<Option<Piece>>)
    requires forall c :: 0 <= c < |row| ==> row[c].None?
    ensures Compact(row) == []
  {
    if row != [] {
      CompactEmpty(row[1..]);
    }
  }

  lemma {:induction false} CompactFull(row: seq<Option<Piece>>)
    requires forall c :: 0 <= c < |row| ==> row[c].Some?
    ensures |Compact(row)| == |row|
  {
    if row != [] {
      CompactFull(row[1..]);
    }
  }

  /** A board with no empty cell holds exactly rows * cols pieces. */
  lemma {:induction false} PlacedFull(b: Board, rows: nat, cols: nat)
    requires IsGrid(b, rows, cols) && !AnyEmpty(b)
    ensures |Placed(b)| == rows * cols
  {
    if b != [] {
      forall c | 0 <= c < |b[0]| ensures b[0][c].Some? {
        assert InGrid(b, 0, c);
      }
      CompactFull(b[0]);
      assert !AnyEmpty(b[1..]) by {
        forall r, c | InGrid(b[1..], r, c) ensures b[1..][r][c].Some? {
          assert InGrid(b, r + 1, c);
        }
      }
      PlacedFull(b[1..], rows - 1, cols);
      Distrib(rows - 1, 1, cols);
    }
  }

  /** What a row-major search looks for: an empty cell, or the cell holding a given id. */
  datatype Probe = EmptyCell | HoldsId(id: int)

  /** `placedPieces[r][c] == nil`, or `placedPieces[r][c]?.id == id`. */
  predicate Hits(o: Option<Piece>, probe: Probe)
  {
    match probe
    case EmptyCell => o.None?
    case HoldsId(id) => o.Some? && o.value.id == id
  }

  /** The first column of a row whose cell the probe hits. */
  function FirstInRow(row: seq<Option<Piece>>, probe: Probe): (c: Option<nat>)
    ensures c.Some? ==>
      c.value < |row| && Hits(row[c.value], probe) &&
      forall j :: 0 <= j < c.value ==> !Hits(row[j], probe)
    ensures c.None? ==> forall j :: 0 <= j < |row| ==> !Hits(row[j], probe)
  {
    if row == [] then None
    else if Hits(row[0], probe) then Some(0)
    else
      match FirstInRow(row[1..], probe)
      case None => None
      case Some(k) => Some(k + 1)
  }

  /** The first cell in row-major order that the probe hits. */
  function FirstCell(b: Board, probe: Probe): (found: Option<Cell>)
    ensures found.Some? ==>
      var cell := found.value;
      InGrid(b, cell.row, cell.col) && Hits(b[cell.row][cell.col], probe) &&
      forall r, c :: InGrid(b, r, c) && (r < cell.row || (r == cell.row && c < cell.col)) ==>
        !Hits(b[r][c], probe)
    ensures found.None? ==> forall r, c :: InGrid(b, r, c) ==> !Hits(b[r][c], probe)
  {
    if b == [] then None
    else
      match FirstInRow(b[0], probe)
      case Some(c) => Some(Cell(0, c))
      case None =>
        var rest := FirstCell(b[1..], probe);
        assert forall r, c :: InGrid(b, r, c) && r > 0 ==> b[r][c] == b[1..][r - 1][c] && InGrid(b[1..], r - 1, c);
        match rest
        case None => None
        case Some(cell) => Some(Cell(cell.row + 1, cell.col))
  }

  /**
   * The nested row-major scan with an early exit that the view writes out
   * twice (the labelled `outerLoop` of the drop handler and the loop of the
   * automatic placement): it finds the first cell the probe hits.
   */
  method FindFirst(b: Board, probe: Probe) returns (found: Option<Cell>)
    ensures found == FirstCell(b, probe)
  {
    var r := 0;
    while r < |b|
      invariant 0 <= r <= |b|
      invariant forall i, j :: 0 <= i < r && InGrid(b, i, j) ==> !Hits(b[i][j], probe)
    {
      var c := 0;
      while c < |b[r]|
        invariant 0 <= c <= |b[r]|
        invariant forall j :: 0 <= j < c ==> !Hits(b[r][j], probe)
      {
        if Hits(b[r][c], probe) {
          return Some(Cell(r, c));
        }
        c := c + 1;
      }
      r := r + 1;
    }
    return None;
  }

  /** Cell (r, c) holds the piece whose correct cell it is. */
  predicate CorrectAt(b: Board, r: int, c: int)
    requires InGrid(b, r, c)
  {
    b[r][c].Some? && b[r][c].value.correctRow == r && b[r][c].value.correctCol == c
  }

  /** Every cell holds its own piece: the solved board. */
  predicate AllCorrect(b: Board)
  {
    forall r, c :: 0 <= r < |b| && 0 <= c < |b[r]| ==> CorrectAt(b, r, c)
  }

  /** Some cell is still empty. */
  predicate AnyEmpty(b: Board)
  {
    exists r, c :: 0 <= r < |b| && 0 <= c < |b[r]| && b[r][c].None?
  }
}
