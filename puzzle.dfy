/**
  The mutable crossword puzzle: its dimensions and a flat row-major buffer of
  cells, updated in place one cell or one wordspan at a time. What the
  updates do is stated in terms of the pure addressing functions of Grid.
 */
module Puzzles {
  import opened Grid

  class Puzzle {
    const rows: nat
    const cols: nat
    const backing: array<char>

    /** The shape every puzzle in the tests of puzzle.rs has: one cell per (row, column). */
    ghost predicate Valid()
      reads this
    {
      backing.Length == rows * cols
    }

    constructor (rows: nat, cols: nat, cells: seq<char>)
      ensures this.rows == rows && this.cols == cols
      ensures fresh(backing) && backing[..] == cells
      ensures Valid() <==> |cells| == rows * cols
    {
      this.rows := rows;
      this.cols := cols;
      backing := new char[|cells|](i requires 0 <= i < |cells| => cells[i]);
    }

    /** Sets the cell at flat index cols * row + col; the column is not checked against the width. */
    method Write(row: nat, col: nat, letter: char)
      requires Square(cols, row, col) < backing.Length
      modifies backing
      ensures backing[..] == old(backing[..])[Square(cols, row, col) := letter]
      ensures Read(backing[..], cols, row, col) == letter
    {
      backing[cols * row + col] := letter;
    }

    /**
      Writes `word` along the span at `a`, letter by letter: the offset from the
      start square grows by 1 Across and by `cols` Down. Every square visited
      must exist; the address's length is not consulted.
     */
    method WriteWordspan(a: WordspanAddress, word: seq<char>)
      requires SpanInBounds(backing.Length, cols, a, |word|)
      modifies backing
      ensures backing[..] == Written(old(backing[..]), cols, a, word)
      ensures forall k :: 0 <= k < backing.Length && !OnSpan(cols, a, |word|, k) ==> backing[k] == old(backing[k])
      ensures Valid() && |word| == a.length && CanReadSpan(old(backing[..]), cols, a) ==>
                CanReadSpan(backing[..], cols, a) && ReadSpan(backing[..], cols, a) == word
    {
      var start := cols * a.startRow + a.startCol;
      var offset := 0;
      for i := 0 to |word|
        invariant offset == i * Stride(cols, a.orientation)
        invariant backing[..] == Written(old(backing[..]), cols, a, word[..i])
      {
        assert word[..i + 1][..i] == word[..i];
        assert start + offset == SpanSquare(cols, a, i);
        backing[start + offset] := word[i];
        offset := offset + match a.orientation
          case Across => 1
          case Down => cols;
      }
      assert word[..|word|] == word;
      ghost var before := old(backing[..]);
      forall k | 0 <= k < backing.Length && !OnSpan(cols, a, |word|, k)
        ensures backing[k] == old(backing[k])
      {
        WrittenOffSpan(before, cols, a, word, k);
      }
      if Valid() && |word| == a.length && CanReadSpan(before, cols, a) {
        WellFormedSpansSeparated(rows, cols, before, a, |word|);
        ReadSpanOfWritten(before, cols, a, word);
      }
    }
  }

  /**
    The write tests of puzzle.rs on the 5 x 5 grid of Grid.TestCells: each
    writes a word into a fresh puzzle and returns what the span then reads.
   */
  method WriteScenarios() returns (plate: string, faith: string)
    ensures plate == "PLATE" && faith == "FAITH"
  {
    var plateAt := WordspanAddress(0, 0, Across, 5);
    var p := new Puzzle(5, 5, TestCells());
    LastSquareBounds(25, 5, plateAt, 5);
    p.WriteWordspan(plateAt, "PLATE");
    plate := ReadSpan(p.backing[..], 5, plateAt);

    var faithAt := WordspanAddress(0, 4, Down, 5);
    var q := new Puzzle(5, 5, TestCells());
    LastSquareBounds(25, 5, faithAt, 5);
    q.WriteWordspan(faithAt, "FAITH");
    faith := ReadSpan(q.backing[..], 5, faithAt);
  }
}
