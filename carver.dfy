/** Carving a puzzle out of a full board by emptying cells. */
module Carver {
  import opened Board

  /** A board whose count of empty cells is below its size has a filled cell. */
  lemma {:induction false} FilledCellExists(g: seq<int>)
    requires ZeroCount(g) < |g|
    ensures exists p :: 0 <= p < |g| && g[p] != 0
  {
    if g[0] == 0 {
      assert g == [g[0]] + g[1..];
      assert multiset(g) == multiset{0} + multiset(g[1..]);
      FilledCellExists(g[1..]);
      var p :| 0 <= p < |g[1..]| && g[1..][p] != 0;
      assert g[p + 1] != 0;
    }
  }

  /**
   * The game's removeNumbers: `attempts` times, pick a filled cell and empty
   * it.  The game draws random cells until it meets a filled one; the model
   * picks any filled cell.  With more attempts than filled cells that search
   * would never end, so the caller must not ask for more.
   */
  method RemoveNumbers(board: array<int>, attempts: int)
    requires board.Length == Cells
    requires attempts <= Cells - ZeroCount(board[..])
    modifies board
    ensures ZeroCount(board[..]) == ZeroCount(old(board[..])) + (if attempts < 0 then 0 else attempts)
    ensures forall p :: 0 <= p < Cells ==> board[p] == 0 || board[p] == old(board[p])
    ensures forall p :: 0 <= p < Cells && old(board[p]) == 0 ==> board[p] == 0
  {
    var left := attempts;
    while left > 0
      invariant left <= attempts && (left < 0 ==> left == attempts)
      invariant ZeroCount(board[..]) == ZeroCount(old(board[..])) + (if left < 0 then 0 else attempts - left)
      invariant ZeroCount(board[..]) + (if left < 0 then 0 else left) <= Cells
      invariant forall p :: 0 <= p < Cells ==> board[p] == 0 || board[p] == old(board[p])
      invariant forall p :: 0 <= p < Cells && old(board[p]) == 0 ==> board[p] == 0
    {
      FilledCellExists(board[..]);
      ghost var q :| 0 <= q < Cells && board[q] != 0;
      assert InGrid(q / 9, q % 9) && Idx(q / 9, q % 9) == q;
      var row, col :| InGrid(row, col) && board[Idx(row, col)] != 0;
      IdxInRange(row, col);
      ghost var before := board[..];
      board[Idx(row, col)] := 0;
      assert board[..] == before[Idx(row, col) := 0];
      left := left - 1;
    }
  }
}
