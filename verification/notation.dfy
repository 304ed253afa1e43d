/** Algebraic notation of hw8/problem1/main.cpp: `position_string` and
    `record_move`, with output streams replaced by returned strings. The
    parsers here invert what the two functions print and so pin down what the
    printed text says. */
module Notation {
  import opened Options
  import opened Points
  import opened Decimal
  import opened Chess

  /** The file letter `static_cast<char>('a' + x - 1)`: the `char` keeps only
      the low eight bits of the sum, so the byte written is (96 + x) mod 256.
      On the board the letter is 'a' .. 'h'. */
  function FileChar(x: int): (c: char)
    ensures 1 <= x <= 8 ==> 'a' <= c <= 'h' && c as int == 'a' as int + x - 1
  {
    (('a' as int + x - 1) % 256) as char
  }

  /** `chess_piece::position_string`: the file letter followed by the rank as
      a decimal number. */
  function PositionString(p: Point): (s: string)
    ensures |s| >= 2 && s[0] == FileChar(p.x)
    ensures IsWithinBounds(p) ==>
      |s| == 2 && 'a' <= s[0] <= 'h' && '1' <= s[1] <= '8'
      && s[0] as int - 'a' as int == p.x - 1 && s[1] as int - '0' as int == p.y
  {
    [FileChar(p.x)] + IntToDecimal(p.y)
  }

  /** The x coordinates whose file letter survives the eight-bit cast. */
  predicate FileFitsInByte(x: int)
  {
    0 <= 'a' as int + x - 1 < 256
  }

  /** Reads a position string back into a point. */
  function ParsePosition(s: string): Option<Point>
  {
    if |s| < 2 then None
    else match ParseInt(s[1..])
      case Some(y) => Some(Point(s[0] as int - 'a' as int + 1, y))
      case None => None
  }

  /** Parsing a position string gives back the position whenever its file
      letter fits in a byte, which every square of the board does. */
  lemma PositionStringRoundTrip(p: Point)
    requires FileFitsInByte(p.x)
    ensures ParsePosition(PositionString(p)) == Some(p)
  {
    var s := PositionString(p);
    assert s[1..] == IntToDecimal(p.y);
    ParseIntToDecimal(p.y);
  }

  /** Distinct squares of the board have distinct names. */
  lemma SquareNamesAreDistinct(p: Point, q: Point)
    requires IsWithinBounds(p) && IsWithinBounds(q)
    ensures PositionString(p) == PositionString(q) <==> p == q
  {
    if PositionString(p) == PositionString(q) {
      PositionStringRoundTrip(p);
      PositionStringRoundTrip(q);
    }
  }

  /** Off the board the cast wraps: x and x + 256 get the same letter. */
  lemma FileLetterWraps(x: int, y: int)
    ensures PositionString(Point(x + 256, y)) == PositionString(Point(x, y))
  {
  }

  /** What `record_move` writes for one piece: its tag, then its square. */
  function PieceNotation(pc: Piece): (s: string)
    ensures |s| >= 3 && s[..1] == ShortName(pc.kind) && s[1..] == PositionString(pc.pos)
  {
    ShortName(pc.kind) + PositionString(pc.pos)
  }

  /** `record_move`: writes the piece's notation, moves it (the move must be
      valid), then writes a space and the piece's notation again. The second
      component is the piece after the move. */
  function RecordMove(pc: Piece, dest: Point): (r: (string, Piece))
    requires IsValidMove(pc, dest)
    ensures r.1.pos == dest && r.1.kind == pc.kind && r.1.color == pc.color
    ensures r.0 == PieceNotation(pc) + " " + PieceNotation(r.1)
  {
    var moved := MoveTo(pc, dest);
    (PieceNotation(pc) + " " + PieceNotation(moved), moved)
  }

  // ---- Reading a recorded move back ------------------------------------

  datatype MoveRecord = MoveRecord(kind: PieceKind, from: Point, to: Point)

  function KindOfTag(c: char): Option<PieceKind>
  {
    if c == 'R' then Some(Rook) else if c == 'B' then Some(Bishop) else None
  }

  lemma KindOfTagInvertsShortName(k: PieceKind)
    ensures KindOfTag(ShortName(k)[0]) == Some(k)
  {
  }

  /** The index of the first space at or after `i`, or `|s|` if none. */
  function FirstSpace(s: string, i: nat): (k: nat)
    requires i <= |s|
    ensures i <= k <= |s|
    ensures k < |s| ==> s[k] == ' '
    ensures forall j :: i <= j < k ==> s[j] != ' '
    decreases |s| - i
  {
    if i == |s| then |s| else if s[i] == ' ' then i else FirstSpace(s, i + 1)
  }

  /** Reads one piece token: a tag letter followed by a position string. */
  function ParseToken(t: string): Option<(PieceKind, Point)>
  {
    if |t| < 1 then None
    else match (KindOfTag(t[0]), ParsePosition(t[1..]))
      case (Some(k), Some(p)) => Some((k, p))
      case _ => None
  }

  /** Reads the text `record_move` writes. The first token's rank is
      delimited by the first space after its file letter, since a decimal
      number never holds a space; both tokens must name the same kind. */
  function ParseRecord(s: string): Option<MoveRecord>
  {
    if |s| < 2 then None
    else
      var k := FirstSpace(s, 2);
      if k == |s| then None
      else match (ParseToken(s[..k]), ParseToken(s[k + 1..]))
        case (Some((k1, p1)), Some((k2, p2))) =>
          if k1 == k2 then Some(MoveRecord(k1, p1, p2)) else None
        case _ => None
  }

  lemma ParseTokenOfNotation(pc: Piece)
    requires FileFitsInByte(pc.pos.x)
    ensures ParseToken(PieceNotation(pc)) == Some((pc.kind, pc.pos))
  {
    var t := PieceNotation(pc);
    assert t[1..] == PositionString(pc.pos);
    PositionStringRoundTrip(pc.pos);
  }

  /** The text `record_move` writes names the piece's kind, the square it
      left and the square it reached, and reads back to exactly those
      (provided the starting file letter fits in a byte, as it does for
      every square of the board). */
  lemma RecordMoveRoundTrip(pc: Piece, dest: Point)
    requires IsValidMove(pc, dest) && FileFitsInByte(pc.pos.x)
    ensures ParseRecord(RecordMove(pc, dest).0) == Some(MoveRecord(pc.kind, pc.pos, dest))
  {
    var moved := MoveTo(pc, dest);
    var a, b := PieceNotation(pc), PieceNotation(moved);
    var s := a + " " + b;
    assert s == RecordMove(pc, dest).0;
    assert a[2..] == IntToDecimal(pc.pos.y);
    assert forall j :: 2 <= j < |a| ==> s[j] == a[2..][j - 2];
    var k := FirstSpace(s, 2);
    assert s[|a|] == ' ';
    assert k == |a|;
    assert s[..k] == a;
    assert s[k + 1..] == b;
    ParseTokenOfNotation(pc);
    ParseTokenOfNotation(moved);
  }
}
