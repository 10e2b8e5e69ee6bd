/**
 * Puzzle pieces and the partition of a decoded image into a rows x cols grid of
 * tiles (`PuzzlePiece` and the geometry of `preparePieces` in PuzzleView.swift).
 *
 * The image payload of a piece is identified by the rectangle of the source
 * image it was cropped from. Cropping is a CoreGraphics call, so a decoded
 * image carries a predicate telling which rectangles it can be cropped to; a
 * failed crop drops that tile, as the source does.
 */
module Pieces {

  /** A rectangle in image pixel coordinates. */
  datatype Rect = Rect(x: int, y: int, width: int, height: int)

  /**
   * A puzzle piece. `id` stands for the piece's UUID; `image` is the crop
   * rectangle that stands for its image.
   */
  datatype Piece = Piece(id: int, image: Rect, correctRow: int, correctCol: int)

  /** A decoded image: its size and which rectangles it can be cropped to. */
  datatype Bitmap = Bitmap(width: nat, height: nat, croppable: Rect -> bool)

  /** The crop rectangle of tile (r, c): integer tile width and height, origin (c*w, r*h). */
  function TileRect(bm: Bitmap, rows: nat, cols: nat, r: nat, c: nat): Rect
    requires rows > 0 && cols > 0
  {
    var w := bm.width / cols;
    var h := bm.height / rows;
    Rect(c * w, r * h, w, h)
  }

  /**
   * Tile (r, c) with the given id if its crop succeeds, nothing otherwise. A
   * fresh UUID is modelled by the number of pieces made before this one, which
   * is as unique within one puzzle as the UUID is.
   */
  function CropTile(bm: Bitmap, rows: nat, cols: nat, r: nat, c: nat, id: int): seq<Piece>
    requires rows > 0 && cols > 0
  {
    var rect := TileRect(bm, rows, cols, r, c);
    if bm.croppable(rect) then [Piece(id, rect, r, c)] else []
  }

  /** The pieces cut from columns 0 .. n-1 of row r, left to right, numbered from `next`. */
  function CutRow(bm: Bitmap, rows: nat, cols: nat, r: nat, n: nat, next: int): seq<Piece>
    requires rows > 0 && cols > 0
  {
    if n == 0 then []
    else
      var s := CutRow(bm, rows, cols, r, n - 1, next);
      s + CropTile(bm, rows, cols, r, n - 1, next + |s|)
  }

  /** The pieces cut from rows 0 .. n-1, in row-major order. */
  function CutRows(bm: Bitmap, rows: nat, cols: nat, n: nat): seq<Piece>
    requires rows > 0 && cols > 0
  {
    if n == 0 then []
    else
      var s := CutRows(bm, rows, cols, n - 1);
      s + CutRow(bm, rows, cols, n - 1, cols, |s|)
  }

  /** The pieces `preparePieces` builds before shuffling them. */
  function Cut(bm: Bitmap, rows: nat, cols: nat): seq<Piece>
    requires rows > 0 && cols > 0
  {
    CutRows(bm, rows, cols, rows)
  }

  /** Piece p was cut where its correct cell says, from a tile of the grid whose crop succeeded. */
  ghost predicate WellCut(bm: Bitmap, rows: nat, cols: nat, p: Piece)
    requires rows > 0 && cols > 0
  {
    0 <= p.correctRow < rows && 0 <= p.correctCol < cols &&
    p.image == TileRect(bm, rows, cols, p.correctRow, p.correctCol) &&
    bm.croppable(p.image)
  }

  /** p comes strictly before q in row-major order of their correct cells. */
  predicate Before(p: Piece, q: Piece)
  {
    p.correctRow < q.correctRow || (p.correctRow == q.correctRow && p.correctCol < q.correctCol)
  }

  predicate RowMajor(s: seq<Piece>)
  {
    forall i, j :: 0 <= i < j < |s| ==> Before(s[i], s[j])
  }

  predicate DistinctIds(s: seq<Piece>)
  {
    forall i, j :: 0 <= i < j < |s| ==> s[i].id != s[j].id
  }

  /** Some piece of s belongs in cell (r, c). */
  predicate Covers(s: seq<Piece>, r: int, c: int)
  {
    exists k :: 0 <= k < |s| && s[k].correctRow == r && s[k].correctCol == c
  }

  lemma {:induction false} CutRowShape(bm: Bitmap, rows: nat, cols: nat, r: nat, n: nat, next: int)
    requires rows > 0 && cols > 0 && r < rows && n <= cols
    ensures var s := CutRow(bm, rows, cols, r, n, next);
      (forall k :: 0 <= k < |s| ==>
        WellCut(bm, rows, cols, s[k]) && s[k].correctRow == r && s[k].correctCol < n && s[k].id == next + k) &&
      RowMajor(s)
  {
    if n > 0 {
      CutRowShape(bm, rows, cols, r, n - 1, next);
    }
  }

  /**
   * Whatever crops succeed, every piece cut is a tile of the grid cut where its
   * correct cell says, pieces are numbered by their position, and they come in
   * strictly increasing row-major order of their cells, so no cell is cut twice.
   */
  lemma {:induction false} CutRowsShape(bm: Bitmap, rows: nat, cols: nat, n: nat)
    requires rows > 0 && cols > 0 && n <= rows
    ensures var s := CutRows(bm, rows, cols, n);
      (forall k :: 0 <= k < |s| ==> WellCut(bm, rows, cols, s[k]) && s[k].correctRow < n && s[k].id == k) &&
      RowMajor(s)
  {
    if n > 0 {
      CutRowsShape(bm, rows, cols, n - 1);
      var a := CutRows(bm, rows, cols, n - 1);
      var b := CutRow(bm, rows, cols, n - 1, cols, |a|);
      CutRowShape(bm, rows, cols, n - 1, cols, |a|);
      var s := a + b;
      forall i, j | 0 <= i < j < |s|
        ensures Before(s[i], s[j])
      {
        if j < |a| {
          assert s[i] == a[i] && s[j] == a[j];
        } else if i < |a| {
          assert s[i] == a[i] && s[j] == b[j - |a|];
        } else {
          assert s[i] == b[i - |a|] && s[j] == b[j - |a|];
        }
      }
    }
  }

  /** The pieces of one partition have pairwise distinct ids. */
  lemma CutDistinctIds(bm: Bitmap, rows: nat, cols: nat)
    requires rows > 0 && cols > 0
    ensures DistinctIds(Cut(bm, rows, cols))
  {
    CutRowsShape(bm, rows, cols, rows);
  }

  /** Multiplication distributes over addition. */
  lemma Distrib(a: int, b: int, k: int)
    ensures (a + b) * k == a * k + b * k
  {
  }

  lemma MulMonotone(a: nat, b: nat, k: nat)
    requires a <= b
    ensures a * k <= b * k
  {
  }

  lemma {:induction false} CutRowComplete(bm: Bitmap, rows: nat, cols: nat, r: nat, n: nat, next: int)
    requires rows > 0 && cols > 0 && n <= cols
    requires forall c :: 0 <= c < n ==> bm.croppable(TileRect(bm, rows, cols, r, c))
    ensures var s := CutRow(bm, rows, cols, r, n, next);
      |s| == n && forall c :: 0 <= c < n ==> s[c].correctRow == r && s[c].correctCol == c
  {
    if n > 0 {
      CutRowComplete(bm, rows, cols, r, n - 1, next);
    }
  }

  lemma {:induction false} CutRowsLength(bm: Bitmap, rows: nat, cols: nat, n: nat)
    requires rows > 0 && cols > 0 && n <= rows
    requires forall r, c :: 0 <= r < n && 0 <= c < cols ==> bm.croppable(TileRect(bm, rows, cols, r, c))
    ensures |CutRows(bm, rows, cols, n)| == n * cols
  {
    if n > 0 {
      CutRowsLength(bm, rows, cols, n - 1);
      CutRowComplete(bm, rows, cols, n - 1, cols, |CutRows(bm, rows, cols, n - 1)|);
      Distrib(n - 1, 1, cols);
    }
  }

  lemma {:induction false} CutRowsCover(bm: Bitmap, rows: nat, cols: nat, n: nat)
    requires rows > 0 && cols > 0 && n <= rows
    requires forall r, c :: 0 <= r < n && 0 <= c < cols ==> bm.croppable(TileRect(bm, rows, cols, r, c))
    ensures forall r, c :: 0 <= r < n && 0 <= c < cols ==> Covers(CutRows(bm, rows, cols, n), r, c)
  {
    if n > 0 {
      CutRowsCover(bm, rows, cols, n - 1);
      var a := CutRows(bm, rows, cols, n - 1);
      var b := CutRow(bm, rows, cols, n - 1, cols, |a|);
      CutRowComplete(bm, rows, cols, n - 1, cols, |a|);
      forall r, c | 0 <= r < n && 0 <= c < cols
        ensures Covers(a + b, r, c)
      {
        if r < n - 1 {
          assert Covers(a, r, c);
          var k :| 0 <= k < |a| && a[k].correctRow == r && a[k].correctCol == c;
          assert (a + b)[k] == a[k];
        } else {
          assert (a + b)[|a| + c] == b[c];
        }
      }
    }
  }

  /**
   * When every crop succeeds, the partition has exactly rows * cols pieces,
   * each belongs to a cell of the grid, every cell has a piece, and no two
   * pieces belong to the same cell.
   */
  lemma CutCoversGrid(bm: Bitmap, rows: nat, cols: nat)
    requires rows > 0 && cols > 0
    requires forall r, c :: 0 <= r < rows && 0 <= c < cols ==> bm.croppable(TileRect(bm, rows, cols, r, c))
    ensures var s := Cut(bm, rows, cols);
      |s| == rows * cols &&
      (forall r, c :: 0 <= r < rows && 0 <= c < cols ==> Covers(s, r, c)) &&
      (forall k :: 0 <= k < |s| ==> 0 <= s[k].correctRow < rows && 0 <= s[k].correctCol < cols) &&
      (forall i, j :: 0 <= i < j < |s| ==>
        s[i].correctRow != s[j].correctRow || s[i].correctCol != s[j].correctCol)
  {
    var s := Cut(bm, rows, cols);
    CutRowsLength(bm, rows, cols, rows);
    CutRowsCover(bm, rows, cols, rows);
    CutRowsShape(bm, rows, cols, rows);
    forall i, j | 0 <= i < j < |s|
      ensures s[i].correctRow != s[j].correctRow || s[i].correctCol != s[j].correctCol
    {
      assert Before(s[i], s[j]);
    }
  }

  /** Every tile's crop rectangle lies inside the image. */
  lemma TileInsideImage(bm: Bitmap, rows: nat, cols: nat, r: nat, c: nat)
    requires rows > 0 && cols > 0 && r < rows && c < cols
    ensures var rect := TileRect(bm, rows, cols, r, c);
      0 <= rect.x && rect.x + rect.width <= bm.width &&
      0 <= rect.y && rect.y + rect.height <= bm.height
  {
    var w, h := bm.width / cols, bm.height / rows;
    assert cols * w <= bm.width;
    assert rows * h <= bm.height;
    Distrib(c, 1, w);
    MulMonotone(c + 1, cols, w);
    Distrib(r, 1, h);
    MulMonotone(r + 1, rows, h);
  }
}
