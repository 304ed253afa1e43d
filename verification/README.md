# Chess board domain model in Dafny

This project models `hw8/problem1/main.cpp`, a small C++ domain model of a
chess board. It has four parts:

- an integer `point` with component-wise arithmetic;
- an axis-aligned `rectangle` with accessors, mutators and a half-open
  `contains` test;
- a `chess_board` whose only state is the bounds rectangle (1,1)–(9,9);
- the `chess_piece` hierarchy (`rook`, `bishop`), with move validation,
  `move_to`, algebraic `position_string` and the free function `record_move`.

Modules follow the parts of the file:

| file | module | models |
|---|---|---|
| `options.dfy` | `Options` | an optional value for the parsers |
| `points.dfy` | `Points` | `point`, its operators, C++ truncating division |
| `rectangles.dfy` | `Rectangles` | `rectangle` |
| `decimal.dfy` | `Decimal` | how `std::ostream` writes an `int` |
| `chess.dfy` | `Chess` | `chess_board`, `chess_piece`, `rook`, `bishop` |
| `notation.dfy` | `Notation` | `position_string`, `record_move` |
| `scenarios.dfy` | `Scenarios` | the two "chess basics" test cases |

All values are immutable. Every in-place mutator of the C++ code, and every
compound assignment operator, is a function that returns the updated value.
The chained `*this` reference is dropped, and the argument of a rectangle
operator is taken by value (see "## Left out" on aliasing). The board reference each piece
holds becomes the constant `Chess.Bounds`, because the board never changes.
Virtual dispatch over the piece classes becomes a match on the closed
datatype `PieceKind = Rook | Bishop`. The fatal `assert` in `move_to` becomes
a `requires IsValidMove(pc, dest)` on `MoveTo` and on `RecordMove`.
`record_move` returns the text it would write to the stream, together with
the moved piece.

The model gives each operation a partner it is proved against:

- inverses: add/sub, mul/div, inflate/deflate, translate forward/back;
- parsers: `ParseInt`, `ParsePosition` and `ParseRecord` read back what
  `position_string` and `record_move` print;
- reference definitions: rook and bishop moves as points on lines with
  direction vectors;
- invariants: a bishop keeps the colour of its square, and moves are
  reversible.

## Model

| member | source | states |
|---|---|---|
| `Points.Add` | hw8/problem1/main.cpp:22-26 | `+=` and the free `+`: subtracting `q` from `p + q` gives `p` back |
| `Points.Sub` | hw8/problem1/main.cpp:17-21 | `-=` and the free `-`: the difference is (0,0) exactly when the two points are equal |
| `Points.Mul` | hw8/problem1/main.cpp:27-31 | `*=`: whenever the factor has no zero component, `/=` by the same factor gives the original point back |
| `Points.Div` | hw8/problem1/main.cpp:32-36 | `/=`: each component of the result is the dividend component divided by the divisor component, truncated toward zero |
| `Points.Equal` | hw8/problem1/main.cpp:157-159 | `operator==` holds exactly when the two points are the same value |
| `Points.TruncDiv` | hw8/problem1/main.cpp:32-36 | the C++ integer `/` used by `/=`: the remainder is smaller than the divisor in magnitude and has the dividend's sign (truncation toward zero) |
| `Points.TruncDivOfProduct` | hw8/problem1/main.cpp:32-36 | for every nonzero `b`, `(a * b) / b == a` under truncating division |
| `Points.AddSubInverse` | hw8/problem1/main.cpp:17-26 | `(p + q) - q == p` and `(p - q) + q == p` for all points |
| `Points.AddAlgebra` | hw8/problem1/main.cpp:44-50 | point addition is commutative and associative, and the default point (0,0) is its identity |
| `Rectangles.FromPoint` | hw8/problem1/main.cpp:56 | the one-point constructor gives extent (0,0) at that point, and the result contains no point at all |
| `Rectangles.Top` | hw8/problem1/main.cpp:90-92 | no contract; the body is `top_left.y` |
| `Rectangles.Left` | hw8/problem1/main.cpp:93-95 | no contract; the body is `top_left.x` |
| `Rectangles.Right` | hw8/problem1/main.cpp:96-98 | no contract; the body is `bottom_right.x` |
| `Rectangles.Bottom` | hw8/problem1/main.cpp:99-101 | no contract; the body is `bottom_right.y` |
| `Rectangles.Width` | hw8/problem1/main.cpp:102-104 | no contract; the body is `bottom_right.x - top_left.x` |
| `Rectangles.Height` | hw8/problem1/main.cpp:105-108 | no contract; the body is `bottom_right.y - top_left.y` |
| `Rectangles.TopRight` | hw8/problem1/main.cpp:84-86 | no contract; the body is `point(bottom_right.x, top_left.y)` |
| `Rectangles.BottomLeft` | hw8/problem1/main.cpp:87-89 | no contract; the body is `point(top_left.x, bottom_right.y)` |
| `Rectangles.Extent` | hw8/problem1/main.cpp:109-112 | no contract; the body is `(width, height)` as a point |
| `Rectangles.Contains` | hw8/problem1/main.cpp:149-151 | no contract; the body is the half-open test of line 150, and its properties are the `Contains…` lemmas |
| `Rectangles.Inflate` | hw8/problem1/main.cpp:117-121 | `inflate(point)`: deflating the result by the same offset gives the original rectangle back |
| `Rectangles.Deflate` | hw8/problem1/main.cpp:129-133 | `deflate(point)`: the width shrinks by `2*d.x` and the height by `2*d.y` |
| `Rectangles.Translate` | hw8/problem1/main.cpp:64-68 | `+=`: the extent is kept, and `-=` by the same point gives the original rectangle back |
| `Rectangles.TranslateBack` | hw8/problem1/main.cpp:69-73 | `-=`: the extent is kept |
| `Rectangles.Scale` | hw8/problem1/main.cpp:74-78 | `*=`: the extent is scaled component-wise by the same factor |
| `Rectangles.ScaleDown` | hw8/problem1/main.cpp:79-83 | `/=`: each coordinate of each corner is divided by the matching factor component, truncated toward zero |
| `Rectangles.FromCoords` | hw8/problem1/main.cpp:58 | the four-integer constructor maps (x1,y1,x2,y2) to left, top, right, bottom |
| `Rectangles.AccessorsAgree` | hw8/problem1/main.cpp:84-112 | extent is (width, height); top-left plus extent is bottom-right; the corner accessors are built from the sides; the sides rebuild the rectangle |
| `Rectangles.ContainsByOffset` | hw8/problem1/main.cpp:149-151 | `p` is inside iff its offset from the top-left corner lies in [0,width) x [0,height) |
| `Rectangles.ContainsNeedsPositiveExtent` | hw8/problem1/main.cpp:149-151 | a rectangle that contains any point has positive width and height; a one-point rectangle does not contain its own point |
| `Rectangles.CornersAndHalfOpenness` | hw8/problem1/main.cpp:149-151 | the top-left corner is inside iff the size is positive; the bottom-right, top-right and bottom-left corners never are |
| `Rectangles.SetExtent` | hw8/problem1/main.cpp:113-116 | after `extent(e)`, the extent is `e` and the top-left corner is unchanged |
| `Rectangles.InflateBy` | hw8/problem1/main.cpp:122-128 | `inflate(i)` is `inflate(point(i, i))` |
| `Rectangles.DeflateBy` | hw8/problem1/main.cpp:134-140 | `deflate(i)` is `deflate(point(i, i))` |
| `Rectangles.SetWidth` | hw8/problem1/main.cpp:141-144 | after `width(i)`, the width is `i`; the top-left corner, bottom and height are unchanged |
| `Rectangles.SetHeight` | hw8/problem1/main.cpp:145-148 | after `height(i)`, the height is `i`; the top-left corner, right side and width are unchanged |
| `Rectangles.InflateDeflateInverse` | hw8/problem1/main.cpp:117-140 | deflating by what was inflated restores the rectangle, and vice versa, in both the point and the integer forms |
| `Rectangles.InflateGrowsSymmetrically` | hw8/problem1/main.cpp:117-121 | inflating by `d` adds `2*d.x` to the width and `2*d.y` to the height and keeps the centre |
| `Rectangles.InflateKeepsContents` | hw8/problem1/main.cpp:117-121 | inflating by a non-negative offset keeps every contained point inside |
| `Rectangles.ExtentSetters` | hw8/problem1/main.cpp:113-148 | setting the current extent is a no-op; setting width then height (in either order) equals setting the extent |
| `Rectangles.TranslateProperties` | hw8/problem1/main.cpp:64-73 | `+=` keeps the extent, is undone by `-=`, and moves the contained points with it |
| `Rectangles.ScaleInverse` | hw8/problem1/main.cpp:74-83 | rectangle `/=` undoes `*=` by a point with nonzero components |
| `Decimal.NatToDecimal` | hw8/problem1/main.cpp:206 | the digits of a natural number are all decimal digits, at least one, without a leading zero, and a single digit exactly when the number is below 10 |
| `Decimal.IntToDecimal` | hw8/problem1/main.cpp:206 | an `int` is written as digits, with a leading minus sign when negative, without leading zeros, and never contains a space |
| `Decimal.NatToDecimalValue` | hw8/problem1/main.cpp:206 | the digits written for `n` denote `n` |
| `Decimal.ParseIntToDecimal` | hw8/problem1/main.cpp:206 | reading back the decimal text of any integer gives the integer |
| `Decimal.SmallDecimal` | hw8/problem1/main.cpp:206 | a number from 0 to 9 is written as its single digit |
| `Chess.IsWithinBounds` | hw8/problem1/main.cpp:189-195 | the board accepts exactly the points with 1 <= x <= 8 and 1 <= y <= 8 |
| `Chess.Name` | hw8/problem1/main.cpp:232-250 | no contract; the body gives "rook" and "bishop"; `NamesDistinguishKinds` states what it promises |
| `Chess.BaseIsValidMove` | hw8/problem1/main.cpp:218-221 | the base rule accepts exactly the destinations with 1 <= x <= 8 and 1 <= y <= 8, wherever the piece stands |
| `Chess.ShortName` | hw8/problem1/main.cpp:238-256 | each variant's tag is a single character |
| `Chess.NamesDistinguishKinds` | hw8/problem1/main.cpp:232-256 | the names "rook"/"bishop" and the tags "R"/"B" tell the variants apart |
| `Chess.IsValidMove` | hw8/problem1/main.cpp:218-255 | every variant's valid move also passes the base rule (the destination is on the board) |
| `Chess.MoveTo` | hw8/problem1/main.cpp:211-215 | `move_to` needs a valid move; afterwards the piece is on the destination, which is on the board, and its kind and colour are unchanged |
| `Chess.RookMovesAlongLines` | hw8/problem1/main.cpp:233-237 | a rook move is valid iff the destination is on the board and on the rank line or the file line through the rook |
| `Chess.BishopMovesAlongDiagonals` | hw8/problem1/main.cpp:251-255 | a bishop move is valid iff the destination is on the board and on one of the two diagonals through the bishop |
| `Chess.StayingPutIsValid` | hw8/problem1/main.cpp:224-257 | both variants accept the zero-length move exactly when the piece stands on the board |
| `Chess.MovesAreReversible` | hw8/problem1/main.cpp:224-257 | after a valid move from an on-board square, moving straight back is valid |
| `Chess.BishopKeepsSquareColor` | hw8/problem1/main.cpp:251-255 | a valid bishop move keeps the parity of x + y |
| `Chess.RookAndBishopShareOnlyTheirSquare` | hw8/problem1/main.cpp:224-257 | a rook and a bishop on the same square both accept only that square, and only when it is on the board |
| `Notation.FileChar` | hw8/problem1/main.cpp:206 | for files 1..8 the letter is 'a'..'h', namely `'a' + x - 1` |
| `Notation.PositionString` | hw8/problem1/main.cpp:203-208 | the file letter comes first; a square of the board gives two characters, a file letter 'a'..'h' and a rank digit '1'..'8' |
| `Notation.PositionStringRoundTrip` | hw8/problem1/main.cpp:203-208 | reading a position string back gives the position, for every x whose letter fits in a byte |
| `Notation.SquareNamesAreDistinct` | hw8/problem1/main.cpp:203-208 | two squares of the board have the same name iff they are the same square |
| `Notation.FileLetterWraps` | hw8/problem1/main.cpp:206 | the `char` cast keeps eight bits, so x and x + 256 get the same letter |
| `Notation.PieceNotation` | hw8/problem1/main.cpp:262 | a piece is written as its one-letter tag followed by its position string |
| `Notation.RecordMove` | hw8/problem1/main.cpp:260-265 | `record_move` needs a valid move; it writes the notation before the move, a space and the notation after it, and leaves the piece on the destination with its kind and colour |
| `Notation.KindOfTagInvertsShortName` | hw8/problem1/main.cpp:238-256 | each variant's tag reads back as that variant |
| `Notation.ParseTokenOfNotation` | hw8/problem1/main.cpp:262 | a piece's notation reads back as its kind and position, for every x whose file letter fits in a byte (every square of the board does) |
| `Notation.RecordMoveRoundTrip` | hw8/problem1/main.cpp:260-265 | the text `record_move` writes reads back as the piece's kind, the square it left and the square it reached |
| `Scenarios.BoardEdges` | hw8/problem1/main.cpp:195 | the bounds (1,1)-(9,9) contain (1,1) and (8,8) but not (9,9), (1,0), (1,10) or (0,5); the board is 8 by 8 |
| `Scenarios.RookCase` | hw8/problem1/main.cpp:272-293 | the rook test case: "a1", the move checks, "a7", and the record "Ra7 Rg7" |
| `Scenarios.BishopCase` | hw8/problem1/main.cpp:295-316 | the bishop test case: "c8", the move checks, "b7", and the record "Bb7 Bh1" |

## Left out

- The doctest harness (lines 1-2 and 268-317) is not modelled as code. Its two test cases are restated as the lemmas in `Scenarios`.
- Fixed-width `int` overflow is not modelled. Coordinates are unbounded integers, so overflow in `+`, `-`, `*`, `std::abs` and `INT_MIN / -1` is absent.
- `Points.TruncDiv`: division by a zero component is excluded by a `requires`, because in C++ it is undefined behaviour.
- The `std::ostream` / `std::ostringstream` plumbing is replaced by returned strings.
- The base-class `name()` and `short_name()`, which `assert(false)`, are left out. The closed `PieceKind` has no base-only variant, so `Name` and `ShortName` are total.
- The board reference and its lifetime are left out. The board is the constant `Chess.Bounds`.
- The copy constructors, the default constructors and the getters `position()` and `color()` need no members: they are value copies, the constants `Points.Origin` and `Rectangles.Empty`, and the datatype fields `pos` and `color`.
- The two-point rectangle constructor is the datatype constructor `Rect`. The one-point constructor is `Rectangles.FromPoint`.
- `Notation.PositionStringRoundTrip`, `Notation.ParseTokenOfNotation` and `Notation.RecordMoveRoundTrip`: these are stated only for x with 0 <= 'a' + x - 1 < 256. For other x the `char` cast wraps, and different positions print the same text (see `Notation.FileLetterWraps`). Every square of the board satisfies the bound.
- `Rectangles.Translate`, `Rectangles.TranslateBack`, `Rectangles.Scale` and `Rectangles.ScaleDown` assume the argument point is not the rectangle's own `top_left`. The C++ operators take the point by reference and update `top_left` before they read the point again for `bottom_right`. So `r += r.top_left` in C++ adds twice the old corner to `bottom_right`, and `r -= r.top_left` leaves `bottom_right` unchanged. The model takes the point by value. `Rectangles.TranslateProperties` and `Rectangles.ScaleInverse` hold only for arguments that do not alias `top_left`. Aliasing `bottom_right` gives the same result as the model, and so does aliasing in any point operator.
