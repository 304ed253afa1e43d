/** The two "chess basics" cases of hw8/problem1/main.cpp, stated as facts
    about the model. */
module Scenarios {
  import opened Points
  import opened Rectangles
  import opened Chess
  import opened Notation

  /** The board's bounds rectangle: (1,1) is inside, the exclusive corner
      (9,9) and the squares just off each edge are not. */
  lemma BoardEdges()
    ensures IsWithinBounds(Point(1, 1)) && IsWithinBounds(Point(8, 8))
    ensures !IsWithinBounds(Point(9, 9)) && !IsWithinBounds(Point(1, 0))
    ensures !IsWithinBounds(Point(1, 10)) && !IsWithinBounds(Point(0, 5))
    ensures Width(Bounds) == 8 && Height(Bounds) == 8
  {
  }

  lemma RookCase()
    ensures var r := Piece(Rook, Point(1, 1), White);
      && Name(r.kind) == "rook"
      && PositionString(r.pos) == "a1"
      && IsValidMove(r, Point(1, 5))
      && !IsValidMove(r, Point(5, 5))
      && !IsValidMove(r, Point(1, 10))
      && !IsValidMove(r, Point(1, 0))
      && IsValidMove(r, Point(1, 7))
      && var r1 := MoveTo(r, Point(1, 7));
      && r1.pos == Point(1, 7) && PositionString(r1.pos) == "a7"
      && IsValidMove(r1, Point(7, 7))
      && RecordMove(r1, Point(7, 7)).0 == "Ra7 Rg7"
  {
  }

  lemma BishopCase()
    ensures var b := Piece(Bishop, Point(3, 8), Black);
      && Name(b.kind) == "bishop"
      && PositionString(b.pos) == "c8"
      && IsValidMove(b, Point(1, 6))
      && !IsValidMove(b, Point(4, 6))
      && !IsValidMove(b, Point(0, 5))
      && !IsValidMove(b, Point(4, 9))
      && IsValidMove(b, Point(2, 7))
      && var b1 := MoveTo(b, Point(2, 7));
      && b1.pos == Point(2, 7) && PositionString(b1.pos) == "b7"
      && IsValidMove(b1, Point(8, 1))
      && RecordMove(b1, Point(8, 1)).0 == "Bb7 Bh1"
  {
  }
}
