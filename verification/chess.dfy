/** The chess board and the two piece kinds of hw8/problem1/main.cpp.

    The C++ board is an object every piece refers to; its only state is a
    constant bounds rectangle, so here it is that constant. The virtual
    methods of `chess_piece` dispatch on a closed `PieceKind`. A piece's
    colour is `const` in the source and its position changes only through
    `MoveTo`. */
module Chess {
  import opened Points
  import opened Rectangles

  // ---- Board -----------------------------------------------------------

  /** `chess_board::bounds_`: files and ranks 1..8, with 9 as the exclusive
      upper bound of the half-open rectangle. */
  const Bounds: Rect := FromCoords(1, 1, 9, 9)

  /** `chess_board::is_within_bounds`. */
  predicate IsWithinBounds(p: Point)
    ensures IsWithinBounds(p) <==> 1 <= p.x <= 8 && 1 <= p.y <= 8
  {
    Contains(Bounds, p)
  }

  // ---- Pieces ----------------------------------------------------------

  datatype Color = White | Black

  datatype PieceKind = Rook | Bishop

  datatype Piece = Piece(kind: PieceKind, pos: Point, color: Color)

  /** The human-readable name each variant supplies. */
  function Name(k: PieceKind): string
  {
    match k
    case Rook => "rook"
    case Bishop => "bishop"
  }

  /** The one-letter algebraic tag each variant supplies. */
  function ShortName(k: PieceKind): (s: string)
    ensures |s| == 1
  {
    match k
    case Rook => "R"
    case Bishop => "B"
  }

  /** The variants have distinct names and distinct tags. */
  lemma NamesDistinguishKinds(k1: PieceKind, k2: PieceKind)
    ensures Name(k1) == Name(k2) <==> k1 == k2
    ensures ShortName(k1) == ShortName(k2) <==> k1 == k2
  {
  }

  /** `chess_piece::is_valid_move`, the base rule every variant builds on:
      the destination must be on the board. */
  predicate BaseIsValidMove(pc: Piece, dest: Point)
    ensures BaseIsValidMove(pc, dest) <==> 1 <= dest.x <= 8 && 1 <= dest.y <= 8
  {
    IsWithinBounds(dest)
  }

  /** The overriding `is_valid_move` of `rook` (same rank or same file) and
      of `bishop` (equal absolute displacement on both axes), each on top of
      the base rule. */
  predicate IsValidMove(pc: Piece, dest: Point)
    ensures IsValidMove(pc, dest) ==> BaseIsValidMove(pc, dest)
  {
    match pc.kind
    case Rook =>
      (dest.y - pc.pos.y == 0 || dest.x - pc.pos.x == 0) && BaseIsValidMove(pc, dest)
    case Bishop =>
      Abs(dest.x - pc.pos.x) == Abs(dest.y - pc.pos.y) && BaseIsValidMove(pc, dest)
  }

  /** `chess_piece::move_to`: the move must be valid (the source asserts it);
      afterwards the piece stands on the destination, which is on the board,
      and keeps its kind and colour. */
  function MoveTo(pc: Piece, dest: Point): (pc': Piece)
    requires IsValidMove(pc, dest)
    ensures pc'.pos == dest && IsWithinBounds(pc'.pos)
    ensures pc'.kind == pc.kind && pc'.color == pc.color
  {
    pc.(pos := dest)
  }

  // ---- Reference geometry of the move rules ----------------------------

  /** The point `t` steps from `from` in direction `dir`. */
  function Step(from: Point, dir: Point, t: int): Point
  {
    Add(from, Mul(Point(t, t), dir))
  }

  /** `to` lies on the line through `from` with direction `dir`. */
  ghost predicate OnLine(from: Point, dir: Point, to: Point)
  {
    exists t :: Step(from, dir, t) == to
  }

  /** Rook lines run along a rank or along a file. */
  ghost predicate OnRookLine(from: Point, to: Point)
  {
    OnLine(from, Point(1, 0), to) || OnLine(from, Point(0, 1), to)
  }

  /** Bishop lines run along one of the two diagonals. */
  ghost predicate OnBishopLine(from: Point, to: Point)
  {
    OnLine(from, Point(1, 1), to) || OnLine(from, Point(1, -1), to)
  }

  /** A rook move is valid exactly when the destination is on the board and
      on a rank or file line through the rook. */
  lemma RookMovesAlongLines(pc: Piece, dest: Point)
    requires pc.kind == Rook
    ensures IsValidMove(pc, dest) <==> OnRookLine(pc.pos, dest) && IsWithinBounds(dest)
  {
    var from := pc.pos;
    if dest.y == from.y {
      assert Step(from, Point(1, 0), dest.x - from.x) == dest;
    } else if dest.x == from.x {
      assert Step(from, Point(0, 1), dest.y - from.y) == dest;
    }
    if OnLine(from, Point(1, 0), dest) {
      var t :| Step(from, Point(1, 0), t) == dest;
      assert dest.y == from.y;
    }
    if OnLine(from, Point(0, 1), dest) {
      var t :| Step(from, Point(0, 1), t) == dest;
      assert dest.x == from.x;
    }
  }

  /** A bishop move is valid exactly when the destination is on the board and
      on a diagonal through the bishop. */
  lemma BishopMovesAlongDiagonals(pc: Piece, dest: Point)
    requires pc.kind == Bishop
    ensures IsValidMove(pc, dest) <==> OnBishopLine(pc.pos, dest) && IsWithinBounds(dest)
  {
    var from := pc.pos;
    var dx, dy := dest.x - from.x, dest.y - from.y;
    if dy == dx {
      assert Step(from, Point(1, 1), dx) == dest;
    } else if dy == -dx {
      assert Step(from, Point(1, -1), dx) == dest;
    }
    if OnLine(from, Point(1, 1), dest) {
      var t :| Step(from, Point(1, 1), t) == dest;
      assert dx == t && dy == t;
    }
    if OnLine(from, Point(1, -1), dest) {
      var t :| Step(from, Point(1, -1), t) == dest;
      assert dx == t && dy == -t;
    }
  }

  // ---- Properties of the move rules ------------------------------------

  /** The zero-length move is accepted by both variants whenever the piece
      stands on the board. */
  lemma StayingPutIsValid(pc: Piece)
    ensures IsValidMove(pc, pc.pos) <==> IsWithinBounds(pc.pos)
  {
  }

  /** Both rules are symmetric: a piece that made a valid move from a square
      on the board may move straight back. */
  lemma MovesAreReversible(pc: Piece, dest: Point)
    requires IsValidMove(pc, dest) && IsWithinBounds(pc.pos)
    ensures IsValidMove(MoveTo(pc, dest), pc.pos)
  {
  }

  /** A bishop never changes the colour of its square: the parity of x + y
      is the same before and after a valid move. */
  lemma BishopKeepsSquareColor(pc: Piece, dest: Point)
    requires pc.kind == Bishop && IsValidMove(pc, dest)
    ensures (dest.x + dest.y) % 2 == (pc.pos.x + pc.pos.y) % 2
  {
    var dx, dy := dest.x - pc.pos.x, dest.y - pc.pos.y;
    var s := pc.pos.x + pc.pos.y;
    if dy == dx {
      assert dest.x + dest.y == s + 2 * dx;
    } else {
      assert dest.x + dest.y == s;
    }
  }

  /** A rook and a bishop on the same square agree on exactly one
      destination: the square itself, when it is on the board. */
  lemma RookAndBishopShareOnlyTheirSquare(pos: Point, c: Color, dest: Point)
    ensures IsValidMove(Piece(Rook, pos, c), dest) && IsValidMove(Piece(Bishop, pos, c), dest)
        <==> dest == pos && IsWithinBounds(pos)
  {
  }
}
