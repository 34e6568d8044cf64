/**
 * The 9x9 Sudoku grid shared by every part of the engine.
 *
 * A board is stored row-major as 81 integers, cell (row, col) at index
 * 9 * row + col (the index the game itself uses for cells); 0 marks an
 * empty cell and 1..9 a placed digit.
 */
module Board {

  const Cells: int := 81

  /** Row-major index of cell (row, col). */
  function Idx(row: int, col: int): int { 9 * row + col }

  predicate InGrid(row: int, col: int) { 0 <= row < 9 && 0 <= col < 9 }

  /** 0 is an empty cell, 1..9 a placed value. */
  predicate IsDigit(x: int) { 0 <= x <= 9 }

  predicate IsBoard(g: seq<int>) {
    |g| == Cells && forall p :: 0 <= p < |g| ==> IsDigit(g[p])
  }

  function At(g: seq<int>, row: int, col: int): int
    requires |g| == Cells && InGrid(row, col)
  {
    g[Idx(row, col)]
  }

  /** A cell of the grid has an index inside the board. */
  lemma IdxInRange(row: int, col: int)
    requires InGrid(row, col)
    ensures 0 <= Idx(row, col) < Cells
  {
  }

  lemma IdxInjective(r1: int, c1: int, r2: int, c2: int)
    requires InGrid(r1, c1) && InGrid(r2, c2)
    ensures 0 <= Idx(r1, c1) < Cells
    ensures Idx(r1, c1) == Idx(r2, c2) <==> r1 == r2 && c1 == c2
  {
  }

  /** Number of empty cells. */
  function ZeroCount(g: seq<int>): nat { multiset(g)[0] }

  /** No cell is empty; the game's isBoardFull on a board. */
  function IsBoardFull(board: seq<int>): (full: bool)
    ensures full <==> ZeroCount(board) == 0
  {
    forall p | 0 <= p < |board| :: board[p] != 0
  }

  /** Two cells share a row, a column or a 3x3 box. */
  predicate SameUnit(r1: int, c1: int, r2: int, c2: int) {
    r1 == r2 || c1 == c2 || (r1 / 3 == r2 / 3 && c1 / 3 == c2 / 3)
  }

  /** No two distinct cells of one row, column or box hold the same digit. */
  ghost predicate Consistent(g: seq<int>)
    requires |g| == Cells
  {
    forall r1, c1, r2, c2 ::
      InGrid(r1, c1) && InGrid(r2, c2) && (r1 != r2 || c1 != c2) &&
      SameUnit(r1, c1, r2, c2) && At(g, r1, c1) != 0
      ==> At(g, r1, c1) != At(g, r2, c2)
  }

  /** A valid complete Sudoku: every cell holds 1..9 and no unit repeats a digit. */
  ghost predicate Solved(g: seq<int>) {
    IsBoard(g) && (forall p :: 0 <= p < |g| ==> g[p] != 0) && Consistent(g)
  }

  /** `h` keeps every non-empty cell of `g`. */
  predicate Extends(h: seq<int>, g: seq<int>) {
    |h| == |g| && forall p :: 0 <= p < |g| && g[p] != 0 ==> h[p] == g[p]
  }

  /** `s` is a solution of the puzzle `g`. */
  ghost predicate IsCompletionOf(s: seq<int>, g: seq<int>) {
    Solved(s) && Extends(s, g)
  }

  /** First row (or column) of the 3x3 box holding row (or column) i. */
  function BoxStart(i: int): (b: int)
    requires 0 <= i < 9
    ensures b % 3 == 0 && b <= i < b + 3 && 0 <= b <= 6
  {
    3 * (i / 3)
  }

  /**
   * Digit `n` is absent from row `row`, from column `col` and from the 3x3
   * box whose top-left corner is (BoxStart(row), BoxStart(col)).  The cell's
   * own current value is not exempted.
   */
  ghost predicate Allowed(g: seq<int>, row: int, col: int, n: int)
    requires |g| == Cells && InGrid(row, col)
  {
    (forall j :: 0 <= j < 9 ==> At(g, row, j) != n) &&
    (forall i :: 0 <= i < 9 ==> At(g, i, col) != n) &&
    (forall r, c ::
       BoxStart(row) <= r < BoxStart(row) + 3 && BoxStart(col) <= c < BoxStart(col) + 3
       ==> At(g, r, c) != n)
  }

  /** Allowed is the same as "no cell sharing a unit with (row, col) holds n". */
  lemma AllowedIffNoPeer(g: seq<int>, row: int, col: int, n: int)
    requires |g| == Cells && InGrid(row, col)
    ensures Allowed(g, row, col, n) <==>
      forall r, c :: InGrid(r, c) && SameUnit(row, col, r, c) ==> At(g, r, c) != n
  {
    if Allowed(g, row, col, n) {
      forall r, c | InGrid(r, c) && SameUnit(row, col, r, c)
        ensures At(g, r, c) != n
      {
        if r == row {
          assert At(g, row, c) != n;
        } else if c == col {
          assert At(g, r, col) != n;
        } else {
          assert BoxStart(row) <= r < BoxStart(row) + 3 && BoxStart(col) <= c < BoxStart(col) + 3;
        }
      }
    }
    if forall r, c :: InGrid(r, c) && SameUnit(row, col, r, c) ==> At(g, r, c) != n {
      forall r, c | BoxStart(row) <= r < BoxStart(row) + 3 && BoxStart(col) <= c < BoxStart(col) + 3
        ensures At(g, r, c) != n
      {
        assert InGrid(r, c) && SameUnit(row, col, r, c);
      }
      forall j | 0 <= j < 9 ensures At(g, row, j) != n {
        assert SameUnit(row, col, row, j);
      }
      forall i | 0 <= i < 9 ensures At(g, i, col) != n {
        assert SameUnit(row, col, i, col);
      }
    }
  }

  /**
   * Writing an allowed digit into an empty cell keeps a consistent board
   * consistent.
   */
  lemma PlaceAllowedKeepsConsistent(g: seq<int>, row: int, col: int, n: int)
    requires IsBoard(g) && InGrid(row, col) && At(g, row, col) == 0
    requires 1 <= n <= 9 && Allowed(g, row, col, n) && Consistent(g)
    ensures IsBoard(g[Idx(row, col) := n]) && Consistent(g[Idx(row, col) := n])
  {
    var h := g[Idx(row, col) := n];
    AllowedIffNoPeer(g, row, col, n);
    forall r1, c1, r2, c2 |
      InGrid(r1, c1) && InGrid(r2, c2) && (r1 != r2 || c1 != c2) &&
      SameUnit(r1, c1, r2, c2) && At(h, r1, c1) != 0
      ensures At(h, r1, c1) != At(h, r2, c2)
    {
      IdxInjective(r1, c1, row, col);
      IdxInjective(r2, c2, row, col);
      if r1 == row && c1 == col {
        assert At(g, r2, c2) != n;
      } else if r2 == row && c2 == col {
        assert SameUnit(row, col, r1, c1);
      } else {
        assert At(h, r1, c1) == At(g, r1, c1) && At(h, r2, c2) == At(g, r2, c2);
      }
    }
  }

  /**
   * If `n` is not allowed at the empty cell (row, col) of `g`, no solution of
   * `g` holds `n` there.
   */
  lemma DisallowedExcluded(g: seq<int>, row: int, col: int, n: int, s: seq<int>)
    requires IsBoard(g) && InGrid(row, col) && At(g, row, col) == 0
    requires n != 0 && !Allowed(g, row, col, n) && IsCompletionOf(s, g)
    ensures At(s, row, col) != n
  {
    AllowedIffNoPeer(g, row, col, n);
    var r, c :| InGrid(r, c) && SameUnit(row, col, r, c) && At(g, r, c) == n;
    IdxInjective(r, c, row, col);
    assert At(s, r, c) == n;
    assert At(s, row, col) != 0;
  }

  /** Copy of a board, the game's JSON deep copy. */
  method Copy(src: array<int>) returns (dst: array<int>)
    ensures fresh(dst) && dst[..] == src[..]
  {
    dst := new int[src.Length](i reads src => if 0 <= i < src.Length then src[i] else 0);
  }
}
