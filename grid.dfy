/**
 * Keyboard layouts as grids of characters, shared by the four-row table of
 * src/lookalikes.rs and the three-row table of src/main.rs: cells, the eight
 * neighbour slots around a key, and the NUL padding both tables use for
 * "no character here".
 */
module Grid {

  /** At least one row, and every row as wide as the first (a `[[char; N_COLS]; N_ROWS]`). */
  predicate Rectangular(layout: seq<string>) {
    |layout| > 0 && |layout[0]| > 0 &&
    forall r :: 0 <= r < |layout| ==> |layout[r]| == |layout[0]|
  }

  /** The character at `(row, col)`, or NUL when the position is off the grid. */
  function Cell(layout: seq<string>, row: int, col: int): char {
    if 0 <= row < |layout| && 0 <= col < |layout[row]| then layout[row][col] else '\0'
  }

  /**
   * The eight neighbour slots of `(row, col)`: up-left, up, up-right, left,
   * right, down-left, down, down-right; NUL where that position is off the grid.
   */
  function Ring(layout: seq<string>, row: int, col: int): (r: string)
    ensures |r| == 8
  {
    [Cell(layout, row - 1, col - 1), Cell(layout, row - 1, col), Cell(layout, row - 1, col + 1),
     Cell(layout, row, col - 1), Cell(layout, row, col + 1),
     Cell(layout, row + 1, col - 1), Cell(layout, row + 1, col), Cell(layout, row + 1, col + 1)]
  }

  /** `n` NUL characters. */
  function Nuls(n: nat): (r: string)
    ensures |r| == n && forall k :: 0 <= k < n ==> r[k] == '\0'
  {
    seq(n, _ => '\0')
  }

  /** `s` with its NUL characters dropped, the others kept in order (`.filter(|c| *c != '\0')`). */
  function NonNul(s: string): (r: string)
    ensures |r| <= |s|
    ensures '\0' !in r
  {
    if s == [] then []
    else
      var init := s[..|s| - 1];
      assert s == init + [s[|s| - 1]];
      NonNul(init) + (if s[|s| - 1] == '\0' then [] else [s[|s| - 1]])
  }

  /** Dropping NULs keeps every other character as often as it occurs. */
  lemma {:induction false} NonNulCounts(s: string)
    ensures forall c :: c != '\0' ==> multiset(NonNul(s))[c] == multiset(s)[c]
    decreases |s|
  {
    if s != [] {
      var init := s[..|s| - 1];
      assert s == init + [s[|s| - 1]];
      NonNulCounts(init);
    }
  }

  /** Dropping NULs distributes over concatenation. */
  lemma {:induction false} NonNulAppend(a: string, b: string)
    ensures NonNul(a + b) == NonNul(a) + NonNul(b)
    decreases |b|
  {
    if b == [] {
      assert a + b == a;
    } else {
      var n := |b| - 1;
      assert (a + b)[..|a + b| - 1] == a + b[..n];
      assert (a + b)[|a + b| - 1] == b[n];
      NonNulAppend(a, b[..n]);
    }
  }

  /** Padding holds no characters. */
  lemma NonNulNuls(n: nat)
    ensures NonNul(Nuls(n)) == []
  {
    if n > 0 {
      assert Nuls(n)[..n - 1] == Nuls(n - 1);
      NonNulNuls(n - 1);
    }
  }

  /** Dropping NULs twice is dropping them once. */
  lemma {:induction false} NonNulIdempotent(s: string)
    ensures NonNul(NonNul(s)) == NonNul(s)
    decreases |s|
  {
    if s != [] {
      var init := s[..|s| - 1];
      var last := if s[|s| - 1] == '\0' then [] else [s[|s| - 1]];
      NonNulIdempotent(init);
      NonNulAppend(NonNul(init), last);
      assert last == [] || NonNul(last) == last by {
        if last != [] { assert last[..0] == []; }
      }
    }
  }

  /** Dropping the NULs of a ring whose first, fourth and sixth slots are empty. */
  lemma Ring8Cleared(c0: char, c1: char, c2: char, c3: char, c4: char, c5: char, c6: char, c7: char)
    requires c0 == c3 == c5 == '\0' && c1 != '\0' && c2 != '\0' && c4 != '\0' && c6 != '\0' && c7 != '\0'
    ensures NonNul([c0, c1, c2, c3, c4, c5, c6, c7]) == [c1, c2, c4, c6, c7]
  {
    var s := [c0, c1, c2, c3, c4, c5, c6, c7];
    assert NonNul([c0]) == [] by { assert [c0][..0] == []; }
    assert NonNul([c0, c1]) == [c1] by { assert [c0, c1][..1] == [c0]; }
    assert NonNul([c0, c1, c2]) == [c1, c2] by { assert [c0, c1, c2][..2] == [c0, c1]; }
    assert NonNul([c0, c1, c2, c3]) == [c1, c2] by { assert [c0, c1, c2, c3][..3] == [c0, c1, c2]; }
    assert NonNul([c0, c1, c2, c3, c4]) == [c1, c2, c4] by { assert [c0, c1, c2, c3, c4][..4] == [c0, c1, c2, c3]; }
    assert NonNul([c0, c1, c2, c3, c4, c5]) == [c1, c2, c4] by { assert [c0, c1, c2, c3, c4, c5][..5] == [c0, c1, c2, c3, c4]; }
    assert NonNul([c0, c1, c2, c3, c4, c5, c6]) == [c1, c2, c4, c6] by { assert [c0, c1, c2, c3, c4, c5, c6][..6] == [c0, c1, c2, c3, c4, c5]; }
    assert s[..7] == [c0, c1, c2, c3, c4, c5, c6];
  }

  /** The `n` cells of row `i` of `res` starting at column `lo`. */
  function Segment(res: array2<char>, i: nat, lo: nat, n: nat): (r: string)
    requires i < res.Length0 && lo + n <= res.Length1
    reads res
    ensures |r| == n && forall k {:trigger r[k]} :: 0 <= k < n ==> r[k] == res[i, lo + k]
  {
    seq(n, k requires 0 <= k < n reads res => res[i, lo + k])
  }

  /**
   * Writes the on-grid neighbours of `(row, col)` into the eight slots of
   * row `i` of `res` that start at column `offset`, leaving off-grid slots as
   * they were (NUL).
   */
  method FillRing(res: array2<char>, i: nat, offset: nat, layout: seq<string>, row: nat, col: nat)
    requires Rectangular(layout) && row < |layout| && col < |layout[0]|
    requires i < res.Length0 && offset + 8 <= res.Length1
    requires Segment(res, i, offset, 8) == Nuls(8)
    modifies res
    ensures Segment(res, i, offset, 8) == Ring(layout, row, col)
    ensures forall a, b :: 0 <= a < res.Length0 && 0 <= b < res.Length1 && !(a == i && offset <= b < offset + 8) ==>
              res[a, b] == old(res[a, b])
  {
    ghost var ring := Ring(layout, row, col);
    ghost var blank := Segment(res, i, offset, 8);
    assert blank[0] == blank[1] == blank[2] == blank[3] == '\0';
    assert blank[4] == blank[5] == blank[6] == blank[7] == '\0';
    FillAbove(res, i, offset, layout, row, col);
    FillBeside(res, i, offset, layout, row, col);
    FillBelow(res, i, offset, layout, row, col);
    assert Segment(res, i, offset, 8)[..3] == ring[..3];
    assert Segment(res, i, offset, 8)[3..5] == ring[3..5];
    assert Segment(res, i, offset, 8)[5..] == ring[5..];
    assert Segment(res, i, offset, 8) == Segment(res, i, offset, 8)[..3] + Segment(res, i, offset, 8)[3..5] + Segment(res, i, offset, 8)[5..];
    assert ring == ring[..3] + ring[3..5] + ring[5..];
  }

  /** Slots 0 to 2: the row above, when there is one. */
  method FillAbove(res: array2<char>, i: nat, offset: nat, layout: seq<string>, row: nat, col: nat)
    requires Rectangular(layout) && row < |layout| && col < |layout[0]|
    requires i < res.Length0 && offset + 8 <= res.Length1
    requires Segment(res, i, offset, 3) == Nuls(3)
    modifies res
    ensures Segment(res, i, offset, 3) == Ring(layout, row, col)[..3]
    ensures forall a, b :: 0 <= a < res.Length0 && 0 <= b < res.Length1 && !(a == i && offset <= b < offset + 3) ==>
              res[a, b] == old(res[a, b])
  {
    var nCols := |layout[0]|;
    ghost var blank := Segment(res, i, offset, 3);
    assert blank[0] == blank[1] == blank[2] == '\0';
    if row > 0 {
      assert |layout[row - 1]| == nCols;
      if col > 0 {
        res[i, offset] := layout[row - 1][col - 1];
      }
      res[i, offset + 1] := layout[row - 1][col];
      if col < nCols - 1 {
        res[i, offset + 2] := layout[row - 1][col + 1];
      }
    }
    assert Segment(res, i, offset, 3) == Ring(layout, row, col)[..3];
  }

  /** Slots 3 and 4: left and right on the same row. */
  method FillBeside(res: array2<char>, i: nat, offset: nat, layout: seq<string>, row: nat, col: nat)
    requires Rectangular(layout) && row < |layout| && col < |layout[0]|
    requires i < res.Length0 && offset + 8 <= res.Length1
    requires Segment(res, i, offset + 3, 2) == Nuls(2)
    modifies res
    ensures Segment(res, i, offset + 3, 2) == Ring(layout, row, col)[3..5]
    ensures forall a, b :: 0 <= a < res.Length0 && 0 <= b < res.Length1 && !(a == i && offset + 3 <= b < offset + 5) ==>
              res[a, b] == old(res[a, b])
  {
    var nCols := |layout[0]|;
    assert |layout[row]| == nCols;
    ghost var blank := Segment(res, i, offset + 3, 2);
    assert blank[0] == blank[1] == '\0';
    if col > 0 {
      res[i, offset + 3] := layout[row][col - 1];
    }
    if col < nCols - 1 {
      res[i, offset + 4] := layout[row][col + 1];
    }
    assert Segment(res, i, offset + 3, 2) == Ring(layout, row, col)[3..5];
  }

  /** Slots 5 to 7: the row below, when there is one. */
  method FillBelow(res: array2<char>, i: nat, offset: nat, layout: seq<string>, row: nat, col: nat)
    requires Rectangular(layout) && row < |layout| && col < |layout[0]|
    requires i < res.Length0 && offset + 8 <= res.Length1
    requires Segment(res, i, offset + 5, 3) == Nuls(3)
    modifies res
    ensures Segment(res, i, offset + 5, 3) == Ring(layout, row, col)[5..]
    ensures forall a, b :: 0 <= a < res.Length0 && 0 <= b < res.Length1 && !(a == i && offset + 5 <= b < offset + 8) ==>
              res[a, b] == old(res[a, b])
  {
    var nRows, nCols := |layout|, |layout[0]|;
    ghost var blank := Segment(res, i, offset + 5, 3);
    assert blank[0] == blank[1] == blank[2] == '\0';
    if row < nRows - 1 {
      assert |layout[row + 1]| == nCols;
      if col > 0 {
        res[i, offset + 5] := layout[row + 1][col - 1];
      }
      res[i, offset + 6] := layout[row + 1][col];
      if col < nCols - 1 {
        res[i, offset + 7] := layout[row + 1][col + 1];
      }
    }
    assert Segment(res, i, offset + 5, 3) == Ring(layout, row, col)[5..];
  }
}
