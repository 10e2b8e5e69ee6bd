# PhotoPuzzle puzzle engine in Dafny

This project models the puzzle state engine of `PuzzleView` in the PhotoPuzzle app
(`PuzzleView.swift`). A decoded photo is cut into a 3 x 4 grid of `PuzzlePiece`s. Each piece carries an
id and the cell it belongs in (`correctRow`, `correctCol`). The pieces are shuffled into a tray
(`pieces`). The user then drags pieces from the tray onto an empty cell of the board (`placedPieces`) or
between cells. In a simulator build only, tapping a tray piece places it in the first empty cell; on a
device the tap does nothing (`PuzzleView.swift:96-100`). After every placement the view checks the
board:

- it raises `isCompleted` when every cell holds its own piece;
- it raises `isFailed` when the board is full but some piece is misplaced.

A reset puts every placed piece back into the tray, shuffled.

Modules:

- `Pieces`: pieces, crop rectangles, and the row-major partition of an image (`Cut`, with lemmas on
  its shape, coverage and distinct ids).
- `Trays`: the tray operations the view uses: first piece with an id, remove all with an id, and shuffle
  as a permutation driven by random draws. Also unique ids over a multiset of pieces.
- `Boards`: the board as rows of optional pieces. Covers one-cell writes, flattening to the placed
  pieces (`flatMap`/`compactMap`), the row-major cell search with its loop implementation, and the
  solved/empty predicates.
- `Moves`: what the main-queue part of a drop does, as a pure function of tray and board (`Deliver`),
  with lemmas that no piece is lost or duplicated and that the dropped piece ends on the target only.
- `Engine`: the cutting loop (`CutPieces`) and the class `PuzzleEngine`. It has the view's state as
  fields and one method per operation, each proved against the functions above. The invariant `Valid()`
  says the board is well shaped, every piece is present once and no two pieces share an id.
  `PreparePieces` (for an image that decodes), `HandleDrop` and `ResetPuzzle` ensure it.
  `PlacePieceAutomatically` ensures it when the piece comes from the tray. `PlacePiece`, `DeliverDrop`
  and `CheckCompletion` ensure only that the board keeps its shape; for a drop, conservation of the
  pieces follows from the `Moves` lemmas about `Deliver`.

Behaviour of the code that the model keeps:

- Drops can only target cells of the grid; an out-of-range index would trap, so in-range cells are a
  precondition.
- Automatic placement on a full board does nothing.
- `isCompleted` and `isFailed` are flags that `checkCompletion` raises and never lowers.
- When the dropped piece is in the tray, the main-queue part of a drop does not re-check the target
  cell (`Moves.DeliverOverwritesOccupant`).
- `PuzzleView.swift:333` carries stray text after `pieces.shuffle()` that is not valid Swift. The model
  reads the line as the shuffle alone.

## Model

| member | source | states |
|---|---|---|
| Pieces.CutRowsShape | PuzzleView.swift:204-214 | every piece cut is the crop of the tile of its own correct cell, taken at (col*w, row*h) with integer tile size, from a crop that succeeded; pieces come in strictly increasing row-major order of their cells, so no cell is cut twice |
| Pieces.CutCoversGrid | PuzzleView.swift:200-214 | when every crop succeeds the partition has exactly rows*cols pieces, every cell of the grid has a piece, every piece belongs in the grid and no two pieces belong in the same cell |
| Pieces.CutDistinctIds | PuzzleView.swift:11-16 | the pieces of one partition have pairwise distinct ids |
| Pieces.TileInsideImage | PuzzleView.swift:202-208 | every tile's crop rectangle lies inside the image |
| Pieces.CutRowComplete | PuzzleView.swift:206-212 | when the crops of a row succeed, the row yields one piece per column, in column order |
| Pieces.CutRowsLength | PuzzleView.swift:205-213 | when every crop of the first n rows succeeds they yield n*cols pieces |
| Pieces.CutRowsCover | PuzzleView.swift:205-213 | when every crop of the first n rows succeeds each of their cells has a piece |
| Trays.FirstWithId | PuzzleView.swift:249 | the index found holds a piece with the id and no earlier piece has it; none only when no piece has it |
| Trays.RemoveId | PuzzleView.swift:251 | every piece with the id is removed and every other piece is kept with its multiplicity |
| Trays.RemoveIdKeepsOrder | PuzzleView.swift:251 | the pieces `removeAll` keeps appear in the result in the order they had in the tray |
| Trays.Shuffled | PuzzleView.swift:216 | whatever the random draws, the result is a permutation of the input |
| Trays.DistinctIdsUnique | PuzzleView.swift:11-16 | a sequence with pairwise distinct ids holds each piece once and no id twice |
| Trays.UniqueSub | PuzzleView.swift:332 | part of a collection with unique ids has unique ids |
| Trays.RemoveUnique | PuzzleView.swift:251 | with unique ids, removing the id of a tray piece takes out exactly that piece |
| Boards.EmptyGrid | PuzzleView.swift:215 | the new board has rows rows of cols cells, all empty |
| Boards.Put | PuzzleView.swift:287 | writing a cell sets that cell, keeps the board's shape and leaves every other cell unchanged |
| Boards.PutBack | PuzzleView.swift:259-268 | clearing the source cell and writing its piece back restores the board exactly |
| Boards.PlacedRow | PuzzleView.swift:332 | replacing one row replaces that row's pieces among the board's pieces and changes no other |
| Boards.PlacedPut | PuzzleView.swift:332 | writing x into a cell takes that cell's piece off the placed pieces and adds x; nothing else comes or goes |
| Boards.PlacedInCell | PuzzleView.swift:332 | every placed piece sits in some cell of the board |
| Boards.PlacedEmpty | PuzzleView.swift:332-334 | a board with every cell empty holds no pieces |
| Boards.PlacedFull | PuzzleView.swift:332 | a rows x cols board with no empty cell holds exactly rows*cols pieces |
| Boards.FirstCell | PuzzleView.swift:256-258 | the cell found is the first one in row-major order that matches (an empty cell, or a piece with the id); none only when no cell matches |
| Boards.FindFirst | PuzzleView.swift:256-276 | the nested row/column loop with early exit finds exactly the cell `FirstCell` specifies |
| Moves.Deliver | PuzzleView.swift:247-279 | the shape of the board is kept; a drop onto an empty target is never refused; a refused move changes neither tray nor board |
| Moves.MoveFromTray | PuzzleView.swift:249-252 | moving a tray piece onto an empty cell keeps the multiset of all pieces |
| Moves.MoveOnBoard | PuzzleView.swift:259-264 | lifting a piece and writing it into a cell that is then empty keeps the placed pieces |
| Moves.FillConserves | PuzzleView.swift:322-323 | automatic placement of a tray piece into an empty cell keeps the multiset of all pieces |
| Moves.DeliverConserves | PuzzleView.swift:247-279 | a delivery onto an empty target, or of an id not in the tray, loses and duplicates no piece |
| Moves.DeliverOverwritesOccupant | PuzzleView.swift:249-252 | a tray piece delivered onto a cell that was filled in the meantime replaces that occupant, which leaves the puzzle |
| Moves.TrayPieceNotOnBoard | PuzzleView.swift:249-258 | with unique ids, no cell holds the id of a tray piece |
| Moves.BoardPieceInOneCell | PuzzleView.swift:256-258 | with unique ids, no other cell holds the id of a placed piece |
| Moves.DeliverFromTray | PuzzleView.swift:249-252 | a tray piece delivered ends on the target, leaves the tray, and is on no other cell |
| Moves.DeliverFromBoard | PuzzleView.swift:256-264 | a board piece delivered onto an empty target ends there and on no other cell |
| Moves.DeliverUnknownId | PuzzleView.swift:247-279 | an id found neither in the tray nor on the board changes nothing |
| Moves.DeliverPlacesOnce | PuzzleView.swift:247-279 | onto an empty target, the move places a piece if and only if some piece has the id; that piece then sits on the target alone, out of the tray; otherwise nothing changes |
| Moves.FullBoardEmptiesTray | PuzzleView.swift:331-333 | when the board has no empty cell and holds every piece of the puzzle (rows*cols of them), the tray is empty |
| Engine.CutPieces | PuzzleView.swift:201-214 | the nested cutting loop builds exactly the row-major partition `Cut` |
| Engine.PuzzleEngine.constructor | PuzzleView.swift:22-37 | a 3 x 4 puzzle, empty tray and board, both flags down, nothing highlighted |
| Engine.PuzzleEngine.PreparePieces | PuzzleView.swift:200-217 | an image that does not decode changes nothing; otherwise the board is empty, the tray is a shuffle of the partition (so a permutation of it), and the invariant holds |
| Engine.PuzzleEngine.CheckCompletion | PuzzleView.swift:292-316 | raises `isCompleted` exactly when every cell holds its own piece and `isFailed` exactly when the board is full but not solved, lowers neither, changes no flag while a cell is empty, and never raises both from a clear state |
| Engine.PuzzleEngine.PlacePiece | PuzzleView.swift:285-290 | no piece: nothing changes; otherwise the cell is written and completion re-checked |
| Engine.PuzzleEngine.DeliverDrop | PuzzleView.swift:247-279 | tray, board, flags and highlight become what `Deliver` specifies: re-checked after a placement, the highlight set exactly when the move was rolled back |
| Engine.PuzzleEngine.HandleDrop | PuzzleView.swift:230-283 | accepted exactly when the target is empty; refused: only the highlight changes; accepted: the piece with the id ends on the target alone and out of the tray, or nothing changes if no piece has the id; the invariant and the multiset of pieces are kept |
| Engine.PuzzleEngine.PlacePieceAutomatically | PuzzleView.swift:318-329 | the piece goes into the first empty cell in row-major order, its id leaves the tray, completion is re-checked; a full board is left unchanged; for a tray piece the invariant and the multiset of pieces are kept |
| Engine.PuzzleEngine.ResetPuzzle | PuzzleView.swift:331-335 | the board is emptied and the tray becomes a shuffle of the placed pieces; the invariant holds, and with an empty tray beforehand no piece is lost |

## Left out

- Image decoding and `CGImage.cropping(to:)` are foreign calls. A decoded image is a parameter
  (`Option<Bitmap>`) that carries its size and which rectangles it can be cropped to. A piece's image is
  the crop rectangle it was cut from.
- `UUID()` is modelled by the number of pieces cut before the piece. It is unique within one puzzle, as
  the UUID is.
- Trays.Shuffled: only the permutation is proved. The randomness is a parameter (a sequence of
  draws), and uniformity of the shuffle is not modelled.
- Provider enumeration, `NSString` loading and `UUID(uuidString:)` parsing are not modelled. A drop
  delivers a piece id directly. The asynchronous hop to the main queue is not modelled as concurrency.
  Instead, `HandleDrop` delivers at once, and `DeliverDrop` is the delivered closure on its own. Its
  re-check and roll-back are then reachable from any state.
- Drops onto cells outside the grid are excluded by precondition: the source would trap on the index.
- Sounds (`AVAudioPlayer`), the 0.5 s timer that clears `invalidDropPosition`, layout and the drag
  preview are not modelled.
- The overlay buttons that clear the flags or call `resetPuzzle` are not modelled. `ContentView.swift`
  (photo selection with `PhotosPicker`) and `ImagePreviewView.swift` (the countdown before the puzzle)
  are not part of this model.
- The simulator-only tap gesture that calls `placePieceAutomatically` is not modelled as a gesture;
  `PlacePieceAutomatically` models the call itself.
- Engine.PuzzleEngine.ResetPuzzle: the new tray holds only the placed pieces, as the source does. The
  multiset of pieces is stated to be kept only when the tray was empty beforehand.
- Engine.PuzzleEngine.PlacePieceAutomatically: conservation is stated only for a piece that is in
  the tray. The view only passes tray pieces.
