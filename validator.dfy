/** The placement check: may a digit go into a cell under the row, column and box rules? */
module Validator {
  import opened Board

  /** Index of the k-th cell (k = 0..8, row-major) of the box holding (row, col). */
  function BoxIdx(row: int, col: int, k: int): (p: int)
    requires InGrid(row, col) && 0 <= k < 9
    ensures 0 <= p < Cells
  {
    BoxCell(row, col, k);
    Idx(BoxStart(row) + k / 3, BoxStart(col) + k % 3)
  }

  /** The k-th box cell lies in the grid, inside the box of (row, col). */
  lemma BoxCell(row: int, col: int, k: int)
    requires InGrid(row, col) && 0 <= k < 9
    ensures InGrid(BoxStart(row) + k / 3, BoxStart(col) + k % 3)
    ensures 0 <= k / 3 < 3 && 0 <= k % 3 < 3
    ensures 0 <= Idx(BoxStart(row) + k / 3, BoxStart(col) + k % 3) < Cells
  {
  }

  /** Step k of the scan finds `num` in neither the row, the column nor the box. */
  ghost predicate ClearAt(g: seq<int>, row: int, col: int, num: int, k: int)
    requires |g| == Cells && InGrid(row, col) && 0 <= k < 9
  {
    At(g, row, k) != num && At(g, k, col) != num && g[BoxIdx(row, col, k)] != num
  }

  /** Box step 3 * dr + dc sits at box row dr and box column dc. */
  lemma DivMod3(dr: int, dc: int)
    requires 0 <= dr < 3 && 0 <= dc < 3
    ensures (3 * dr + dc) / 3 == dr && (3 * dr + dc) % 3 == dc
  {
  }

  /** Visiting the nine box cells by k covers the whole box. */
  lemma BoxScanCoversBox(g: seq<int>, row: int, col: int, num: int)
    requires |g| == Cells && InGrid(row, col)
    requires forall k :: 0 <= k < 9 ==> ClearAt(g, row, col, num, k)
    ensures Allowed(g, row, col, num)
  {
    forall r, c | BoxStart(row) <= r < BoxStart(row) + 3 && BoxStart(col) <= c < BoxStart(col) + 3
      ensures At(g, r, c) != num
    {
      var dr, dc := r - BoxStart(row), c - BoxStart(col);
      var k := 3 * dr + dc;
      DivMod3(dr, dc);
      assert BoxIdx(row, col, k) == Idx(r, c);
      assert ClearAt(g, row, col, num, k);
    }
    forall j | 0 <= j < 9 ensures At(g, row, j) != num && At(g, j, col) != num {
      assert ClearAt(g, row, col, num, j);
    }
  }

  /**
   * The game's isValid: one pass over i = 0..8 looks at cell i of the row,
   * cell i of the column and cell i of the box (box row i / 3, box column i % 3),
   * and answers false at the first occurrence of `num`.
   */
  method IsValid(board: array<int>, row: int, col: int, num: int) returns (ok: bool)
    requires board.Length == Cells && InGrid(row, col)
    ensures ok <==> Allowed(board[..], row, col, num)
  {
    ghost var g := board[..];
    for i := 0 to 9
      invariant forall k :: 0 <= k < i ==> ClearAt(g, row, col, num, k)
    {
      IdxInRange(row, i);
      IdxInRange(i, col);
      if board[Idx(row, i)] == num {
        assert At(g, row, i) == num;
        return false;
      }
      if board[Idx(i, col)] == num {
        assert At(g, i, col) == num;
        return false;
      }
      BoxCell(row, col, i);
      var boxRow := BoxStart(row) + i / 3;
      var boxCol := BoxStart(col) + i % 3;
      if board[Idx(boxRow, boxCol)] == num {
        assert At(g, boxRow, boxCol) == num;
        return false;
      }
      assert ClearAt(g, row, col, num, i);
    }
    BoxScanCoversBox(g, row, col, num);
    return true;
  }

  /** Nine pairwise distinct values drawn from 1..m need m >= 9 (the pigeonhole principle). */
  lemma {:induction false} DistinctBound(v: seq<int>, m: int)
    requires forall i :: 0 <= i < |v| ==> 1 <= v[i] <= m
    requires forall i, j :: 0 <= i < j < |v| ==> v[i] != v[j]
    ensures |v| <= if m < 0 then 0 else m
  {
    if |v| > 0 {
      assert 1 <= v[0] <= m;
      if m in v {
        var k :| 0 <= k < |v| && v[k] == m;
        var w := v[..k] + v[k + 1..];
        assert forall i :: 0 <= i < |w| ==> w[i] == if i < k then v[i] else v[i + 1];
        DistinctBound(w, m - 1);
      } else {
        DistinctBound(v, m - 1);
      }
    }
  }

  /** Nine distinct digits 1..9 hold every digit. */
  lemma NineDistinctDigitsCoverAll(v: seq<int>, n: int)
    requires |v| == 9 && 1 <= n <= 9
    requires forall i :: 0 <= i < |v| ==> 1 <= v[i] <= 9
    requires forall i, j :: 0 <= i < j < |v| ==> v[i] != v[j]
    ensures n in v
  {
    if n !in v {
      var u := seq(|v|, i requires 0 <= i < |v| => if v[i] > n then v[i] - 1 else v[i]);
      DistinctBound(u, 8);
    }
  }

  /**
   * In a solved grid with one cell cleared, the check accepts the cleared
   * cell's own value there and rejects every other digit.
   */
  lemma SolvedCellAllowsOnlyItsValue(s: seq<int>, row: int, col: int, n: int)
    requires Solved(s) && InGrid(row, col) && 1 <= n <= 9
    ensures Allowed(s[Idx(row, col) := 0], row, col, n) <==> n == At(s, row, col)
  {
    var g := s[Idx(row, col) := 0];
    AllowedIffNoPeer(g, row, col, n);
    if n == At(s, row, col) {
      forall r, c | InGrid(r, c) && SameUnit(row, col, r, c) ensures At(g, r, c) != n {
        IdxInjective(r, c, row, col);
        if r != row || c != col {
          assert At(s, row, col) != At(s, r, c);
        }
      }
    } else {
      var v := seq(9, j requires 0 <= j < 9 => At(s, row, j));
      forall i, j | 0 <= i < j < 9 ensures v[i] != v[j] {
        assert SameUnit(row, i, row, j);
      }
      NineDistinctDigitsCoverAll(v, n);
      var j :| 0 <= j < 9 && v[j] == n;
      IdxInjective(row, j, row, col);
      assert At(g, row, j) == n;
      assert SameUnit(row, col, row, j);
    }
  }
}
