/**
  Cell and wordspan addressing of a crossword grid.

  A grid is `cols` (its width) and a flat, row-major sequence of cells; the
  number of rows plays no part in addressing, so the functions here take only
  the width and the cell contents. These are the read-only operations of a
  puzzle; the in-place writes live in module Puzzles and are specified by
  `Written` below.
 */
module Grid {

  datatype Orientation = Across | Down

  /** A run of `length` cells starting at (startRow, startCol). */
  datatype WordspanAddress = WordspanAddress(startRow: nat, startCol: nat, orientation: Orientation, length: nat)

  /** Flat index of the cell at (row, col); the column is not checked against the width. */
  function Square(cols: nat, row: nat, col: nat): nat {
    cols * row + col
  }

  function StartSquare(cols: nat, a: WordspanAddress): nat {
    Square(cols, a.startRow, a.startCol)
  }

  /** Distance between consecutive cells of a span of the given orientation. */
  function Stride(cols: nat, o: Orientation): nat {
    match o
    case Across => 1
    case Down => cols
  }

  /** Flat index of the i-th cell of the span at `a`. */
  function SpanSquare(cols: nat, a: WordspanAddress, i: nat): nat {
    StartSquare(cols, a) + i * Stride(cols, a.orientation)
  }

  /** The first `len` cells of the span at `a` all lie inside a grid of `n` cells. */
  predicate SpanInBounds(n: nat, cols: nat, a: WordspanAddress, len: nat) {
    forall i :: 0 <= i < len ==> SpanSquare(cols, a, i) < n
  }

  /** A span is inside the grid as soon as its last cell is. */
  lemma LastSquareBounds(n: nat, cols: nat, a: WordspanAddress, len: nat)
    requires len > 0 ==> SpanSquare(cols, a, len - 1) < n
    ensures SpanInBounds(n, cols, a, len)
  {
    forall i | 0 <= i < len ensures SpanSquare(cols, a, i) < n {
      MulMonotone(Stride(cols, a.orientation), i, len - 1);
    }
  }

  /** Flat index k is one of the first `len` cells of the span at `a`. */
  ghost predicate OnSpan(cols: nat, a: WordspanAddress, len: nat, k: nat) {
    exists i :: 0 <= i < len && SpanSquare(cols, a, i) == k
  }

  /**
    What reading the span needs in order not to fail: Across it is a slice,
    whose end must not pass the end of the grid (even when it is empty);
    Down every cell visited must exist.
   */
  predicate CanReadSpan(cells: seq<char>, cols: nat, a: WordspanAddress) {
    match a.orientation
    case Across => StartSquare(cols, a) + a.length <= |cells|
    case Down => SpanInBounds(|cells|, cols, a, a.length)
  }

  /** Consecutive cells of a span of length `len` are at distinct squares. */
  predicate Separated(cols: nat, a: WordspanAddress, len: nat) {
    len <= 1 || Stride(cols, a.orientation) > 0
  }

  /** The cell at (row, col). */
  function Read(cells: seq<char>, cols: nat, row: nat, col: nat): char
    requires Square(cols, row, col) < |cells|
  {
    cells[Square(cols, row, col)]
  }

  /**
    The letters of the span at `a`: a contiguous slice Across, a gather with
    stride `cols` Down. Either way its i-th letter is the cell at SpanSquare(i).
   */
  function ReadSpan(cells: seq<char>, cols: nat, a: WordspanAddress): (s: seq<char>)
    requires CanReadSpan(cells, cols, a)
    ensures |s| == a.length
    ensures SpanInBounds(|cells|, cols, a, a.length)
    ensures forall i :: 0 <= i < a.length ==> s[i] == cells[SpanSquare(cols, a, i)]
  {
    var start := StartSquare(cols, a);
    match a.orientation
    case Across => cells[start..start + a.length]
    case Down => seq(a.length, r requires 0 <= r < a.length => cells[SpanSquare(cols, a, r)])
  }

  /**
    The cells after writing `word` letter by letter along the span at `a`:
    letter i goes to SpanSquare(i), and a later letter overwrites an earlier
    one at the same square. The address's own length plays no part.
   */
  function Written(cells: seq<char>, cols: nat, a: WordspanAddress, word: seq<char>): (r: seq<char>)
    requires SpanInBounds(|cells|, cols, a, |word|)
    ensures |r| == |cells|
    decreases |word|
  {
    if word == [] then cells
    else
      var last := |word| - 1;
      Written(cells, cols, a, word[..last])[SpanSquare(cols, a, last) := word[last]]
  }

  /** The i-th cell of a span is at (startRow, startCol + i) Across and (startRow + i, startCol) Down. */
  function Locale(a: WordspanAddress, i: nat): (nat, nat)
  {
    match a.orientation
    case Across => (a.startRow, a.startCol + i)
    case Down => (a.startRow + i, a.startCol)
  }

  /** Reading a span visits its locales in order: its i-th letter is the cell at Locale(a, i). */
  lemma ReadSpanVisitsLocales(cells: seq<char>, cols: nat, a: WordspanAddress, i: nat)
    requires CanReadSpan(cells, cols, a) && i < a.length
    ensures Square(cols, Locale(a, i).0, Locale(a, i).1) < |cells|
    ensures ReadSpan(cells, cols, a)[i] == Read(cells, cols, Locale(a, i).0, Locale(a, i).1)
  {
    var s := ReadSpan(cells, cols, a);
    match a.orientation
    case Across =>
      assert SpanSquare(cols, a, i) == Square(cols, a.startRow, a.startCol + i);
    case Down =>
      calc {
        Square(cols, a.startRow + i, a.startCol);
        cols * (a.startRow + i) + a.startCol;
        { assert cols * (a.startRow + i) == cols * a.startRow + cols * i; }
        cols * a.startRow + a.startCol + i * cols;
        SpanSquare(cols, a, i);
      }
  }

  lemma MulMonotone(c: nat, x: nat, y: nat)
    requires x <= y
    ensures c * x <= c * y
  {
    assert c * y == c * x + c * (y - x);
  }

  /** The column is not checked: on a width-5 grid, column 7 of row 0 is column 2 of row 1. */
  lemma ReadPastRowEnd(cells: seq<char>)
    requires |cells| >= 8
    ensures Read(cells, 5, 0, 7) == Read(cells, 5, 1, 2) == cells[7]
  {
  }

  lemma SpanSquareIncreasing(cols: nat, a: WordspanAddress, i: nat, j: nat)
    requires Stride(cols, a.orientation) > 0 && i < j
    ensures SpanSquare(cols, a, i) < SpanSquare(cols, a, j)
  {
    var st := Stride(cols, a.orientation);
    assert j * st == i * st + (j - i) * st;
    assert (j - i) * st >= st by { MulMonotone(st, 1, j - i); }
  }

  /** Writing a word leaves every square off its span as it was. */
  lemma {:induction false} WrittenOffSpan(cells: seq<char>, cols: nat, a: WordspanAddress, word: seq<char>, k: nat)
    requires SpanInBounds(|cells|, cols, a, |word|)
    requires k < |cells| && !OnSpan(cols, a, |word|, k)
    ensures Written(cells, cols, a, word)[k] == cells[k]
  {
    if word != [] {
      var last := |word| - 1;
      assert SpanSquare(cols, a, last) != k;
      WrittenOffSpan(cells, cols, a, word[..last], k);
    }
  }

  /** When the span's squares are distinct, its i-th square holds the word's i-th letter. */
  lemma {:induction false} WrittenOnSpan(cells: seq<char>, cols: nat, a: WordspanAddress, word: seq<char>, i: nat)
    requires SpanInBounds(|cells|, cols, a, |word|) && Separated(cols, a, |word|)
    requires i < |word|
    ensures Written(cells, cols, a, word)[SpanSquare(cols, a, i)] == word[i]
  {
    var last := |word| - 1;
    if i < last {
      SpanSquareIncreasing(cols, a, i, last);
      WrittenOnSpan(cells, cols, a, word[..last], i);
    }
  }

  /**
    Round trip: writing a word of the address's length into a readable span
    and reading the span back gives the word.
   */
  lemma ReadSpanOfWritten(cells: seq<char>, cols: nat, a: WordspanAddress, word: seq<char>)
    requires CanReadSpan(cells, cols, a) && |word| == a.length && Separated(cols, a, |word|)
    ensures SpanInBounds(|cells|, cols, a, |word|)
    ensures CanReadSpan(Written(cells, cols, a, word), cols, a)
    ensures ReadSpan(Written(cells, cols, a, word), cols, a) == word
  {
    var _ := ReadSpan(cells, cols, a);
    var r := Written(cells, cols, a, word);
    var s := ReadSpan(r, cols, a);
    forall i | 0 <= i < |word| ensures s[i] == word[i] {
      WrittenOnSpan(cells, cols, a, word, i);
    }
  }

  /**
    In a grid whose cell count is rows * cols, the squares of any in-bounds
    span are distinct: a non-empty grid has a non-zero width.
   */
  lemma WellFormedSpansSeparated(rows: nat, cols: nat, cells: seq<char>, a: WordspanAddress, len: nat)
    requires |cells| == rows * cols && SpanInBounds(|cells|, cols, a, len)
    ensures Separated(cols, a, len)
    ensures forall i, j :: 0 <= i < j < len ==> SpanSquare(cols, a, i) != SpanSquare(cols, a, j)
  {
    if len > 1 {
      assert SpanSquare(cols, a, 0) < |cells|;
      forall i, j | 0 <= i < j < len ensures SpanSquare(cols, a, i) != SpanSquare(cols, a, j) {
        SpanSquareIncreasing(cols, a, i, j);
      }
    }
  }

  /**
    Without that, a Down span of a zero-width grid revisits one square, so the
    last letter written wins and the round trip fails.
   */
  lemma ZeroWidthDownSpanCollapses(cells: seq<char>, a: WordspanAddress, word: seq<char>)
    requires a.orientation == Down && a.length == 2 && |word| == 2
    requires StartSquare(0, a) < |cells|
    ensures SpanInBounds(|cells|, 0, a, 2)
    ensures ReadSpan(Written(cells, 0, a, word), 0, a) == [word[1], word[1]]
  {
    assert SpanSquare(0, a, 0) == SpanSquare(0, a, 1) == StartSquare(0, a);
    var written := Written(cells, 0, a, word);
    var r := ReadSpan(written, 0, a);
    assert r[0] == word[1];
    assert r[1] == word[1];
  }

  /** The 5 x 5 grid of the tests of puzzle.rs, row by row: WRITE, AARON, GIANT, ESTER, REEDY. */
  function TestCells(): (cells: seq<char>)
    ensures |cells| == 25
  {
    "WRITEAARONGIANTESTERREEDY"
  }

  /** Across at (0, 0), length 5, reads the first row. */
  lemma TestGridAcross()
    ensures ReadSpan(TestCells(), 5, WordspanAddress(0, 0, Across, 5)) == "WRITE"
  {
    var g := TestCells();
    assert ReadSpan(g, 5, WordspanAddress(0, 0, Across, 5)) == g[0..5];
  }

  /** Down at (0, 1), length 5, reads the second column. */
  lemma TestGridDown()
    ensures ReadSpan(TestCells(), 5, WordspanAddress(0, 1, Down, 5)) == "RAISE"
  {
    var g := TestCells();
    var a := WordspanAddress(0, 1, Down, 5);
    LastSquareBounds(25, 5, a, 5);
    assert ReadSpan(g, 5, a) == [g[1], g[6], g[11], g[16], g[21]] by {
      assert SpanSquare(5, a, 1) == 6;
      assert SpanSquare(5, a, 2) == 11;
      assert SpanSquare(5, a, 3) == 16;
      assert SpanSquare(5, a, 4) == 21;
    }
  }
}
