/** Randomised backtracking that fills a board into a complete Sudoku. */
module Generator {
  import opened Board
  import Validator
  import Shuffle

  /**
   * The game's fillBoard.  It finds the first empty cell in row-major order,
   * tries the digits 1..9 there in shuffled order, places each one the check
   * accepts and recurses; a failed recursion is undone by clearing the cell.
   *
   * On success the board is full, keeps every cell that was filled on entry,
   * and is a valid Sudoku when the entry board had no conflicts.  On failure
   * the board is exactly as on entry and no solution of it exists: the search
   * is exhaustive.
   */
  method FillBoard(board: array<int>) returns (ok: bool)
    requires IsBoard(board[..])
    modifies board
    ensures IsBoard(board[..])
    ensures ok ==> IsBoardFull(board[..]) && Extends(board[..], old(board[..]))
    ensures ok && Consistent(old(board[..])) ==> Solved(board[..])
    ensures !ok ==> board[..] == old(board[..])
    ensures !ok ==> forall s :: !IsCompletionOf(s, old(board[..]))
    decreases ZeroCount(board[..]), 2
  {
    ghost var g := board[..];
    for row := 0 to 9
      invariant board[..] == g
      invariant forall p :: 0 <= p < Idx(row, 0) ==> g[p] != 0
    {
      for col := 0 to 9
        invariant board[..] == g
        invariant forall p :: 0 <= p < Idx(row, col) ==> g[p] != 0
      {
        if board[Idx(row, col)] == 0 {
          ok := TryDigits(board, row, col);
          return;
        }
      }
    }
    return true;
  }

  /**
   * The candidate loop of fillBoard at the empty cell (row, col): shuffle
   * 1..9 and try each digit in that order until one leads to a full board.
   */
  method TryDigits(board: array<int>, row: int, col: int) returns (ok: bool)
    requires IsBoard(board[..]) && InGrid(row, col) && board[Idx(row, col)] == 0
    modifies board
    ensures IsBoard(board[..])
    ensures ok ==> IsBoardFull(board[..]) && Extends(board[..], old(board[..]))
    ensures ok && Consistent(old(board[..])) ==> Solved(board[..])
    ensures !ok ==> board[..] == old(board[..])
    ensures !ok ==> forall s :: !IsCompletionOf(s, old(board[..]))
    decreases ZeroCount(board[..]), 1
  {
    ghost var g := board[..];
    var nums := new int[9](i => i + 1);
    ghost var digits := nums[..];
    forall d | 1 <= d <= 9 ensures d in multiset(digits) {
      assert digits[d - 1] == d;
    }
    Shuffle.Shuffle(nums);
    ghost var order := nums[..];
    for k := 0 to 9
      invariant board[..] == g && nums[..] == order
      invariant forall i :: 0 <= i < k ==> NoSolutionHolds(g, Idx(row, col), order[i])
    {
      assert nums[k] in multiset(digits);
      ok := TryDigit(board, row, col, nums[k]);
      if ok {
        return;
      }
    }
    ShuffledDigitsCoverAll(order, digits);
    DigitsExhausted(g, Idx(row, col), order);
    return false;
  }

  /**
   * One step of the candidate loop: if the check accepts `num` at the empty
   * cell (row, col), place it and recurse, and clear the cell again when the
   * recursion fails.  On failure no solution of the entry board holds `num`
   * at (row, col).
   */
  method TryDigit(board: array<int>, row: int, col: int, num: int) returns (ok: bool)
    requires IsBoard(board[..]) && InGrid(row, col) && board[Idx(row, col)] == 0
    requires 1 <= num <= 9
    modifies board
    ensures IsBoard(board[..])
    ensures ok ==> IsBoardFull(board[..]) && Extends(board[..], old(board[..]))
    ensures ok && Consistent(old(board[..])) ==> Solved(board[..])
    ensures !ok ==> board[..] == old(board[..])
    ensures !ok ==> NoSolutionHolds(old(board[..]), Idx(row, col), num)
    decreases ZeroCount(board[..]), 0
  {
    ghost var g := board[..];
    var p := Idx(row, col);
    var valid := Validator.IsValid(board, row, col, num);
    if valid {
      board[p] := num;
      assert board[..] == g[p := num];
      PlaceAllowedKeepsConsistentIf(g, row, col, num);
      ok := FillBoard(board);
      if ok {
        ExtendsThroughPlacement(board[..], g, p, num);
        return;
      }
      forall s | IsCompletionOf(s, g) && s[p] == num {
        CompletionThroughPlacement(s, g, p, num);
      }
      board[p] := 0;
      assert board[..] == g;
    } else {
      forall s | IsCompletionOf(s, g) ensures s[p] != num {
        DisallowedExcluded(g, row, col, num, s);
      }
      ok := false;
    }
  }

  /** No solution of g holds n at cell p. */
  ghost predicate NoSolutionHolds(g: seq<int>, p: int, n: int)
    requires 0 <= p < |g|
  {
    forall s :: IsCompletionOf(s, g) ==> s[p] != n
  }

  /** When every digit 1..9 is ruled out at cell p, g has no solution at all. */
  lemma DigitsExhausted(g: seq<int>, p: int, order: seq<int>)
    requires 0 <= p < |g|
    requires forall d :: 1 <= d <= 9 ==> d in order
    requires forall i :: 0 <= i < |order| ==> NoSolutionHolds(g, p, order[i])
    ensures forall s :: !IsCompletionOf(s, g)
  {
    forall s | IsCompletionOf(s, g) ensures s[p] in order {
    }
  }

  /** A board that keeps every filled cell of g[p := n] keeps every filled cell of g. */
  lemma ExtendsThroughPlacement(b: seq<int>, g: seq<int>, p: int, n: int)
    requires 0 <= p < |g| && g[p] == 0 && Extends(b, g[p := n])
    ensures Extends(b, g)
  {
  }

  /** A solution of g holding n at the empty cell p is a solution of g[p := n]. */
  lemma CompletionThroughPlacement(s: seq<int>, g: seq<int>, p: int, n: int)
    requires 0 <= p < |g| && g[p] == 0 && IsCompletionOf(s, g) && s[p] == n
    ensures IsCompletionOf(s, g[p := n])
  {
  }

  /** A shuffled copy of 1..9 still holds every digit 1..9. */
  lemma ShuffledDigitsCoverAll(order: seq<int>, digits: seq<int>)
    requires multiset(order) == multiset(digits)
    requires forall d :: 1 <= d <= 9 ==> d in multiset(digits)
    ensures forall d :: 1 <= d <= 9 ==> d in order
  {
    forall d | 1 <= d <= 9 ensures d in order {
      assert d in multiset(order);
    }
  }

  /** Placing an allowed digit keeps the board a board, and a consistent one consistent. */
  lemma PlaceAllowedKeepsConsistentIf(g: seq<int>, row: int, col: int, n: int)
    requires IsBoard(g) && InGrid(row, col) && At(g, row, col) == 0
    requires 1 <= n <= 9 && Allowed(g, row, col, n)
    ensures IsBoard(g[Idx(row, col) := n])
    ensures Consistent(g) ==> Consistent(g[Idx(row, col) := n])
  {
    if Consistent(g) {
      PlaceAllowedKeepsConsistent(g, row, col, n);
    }
  }

  /**
   * The game's generateCompleteBoard: fill an all-empty board.  The result of
   * fillBoard is not consulted; the model proves it is always true, because
   * the search is exhaustive and an empty board has a solution.
   */
  method GenerateCompleteBoard() returns (board: array<int>)
    ensures fresh(board) && Solved(board[..])
  {
    board := new int[Cells](_ => 0);
    ghost var empty := board[..];
    var ok := FillBoard(board);
    PatternIsSolved();
    assert IsCompletionOf(Pattern(), empty);
  }

  /** Digit of a fixed solved grid: each row shifts the previous one. */
  function PatternDigit(row: int, col: int): int {
    (3 * (row % 3) + row / 3 + col) % 9 + 1
  }

  /** A concrete complete Sudoku, the witness that an empty board has a solution. */
  function Pattern(): (s: seq<int>)
    ensures |s| == Cells
  {
    seq(Cells, p => PatternDigit(p / 9, p % 9))
  }

  lemma PatternAt(row: int, col: int)
    requires InGrid(row, col)
    ensures At(Pattern(), row, col) == PatternDigit(row, col)
  {
    assert Idx(row, col) / 9 == row && Idx(row, col) % 9 == col;
  }

  lemma ShiftMod9Injective(a: int, b: int, k: int)
    requires 0 <= a < 9 && 0 <= b < 9 && a != b
    ensures (a + k) % 9 != (b + k) % 9
  {
  }

  /** 3 * (x % 3) + y % 3 tells apart cells of one 3x3 box. */
  lemma SplitBy3(a1: int, b1: int, a2: int, b2: int)
    requires 0 <= a1 && 0 <= b1 && 0 <= a2 && 0 <= b2
    requires a1 / 3 == a2 / 3 && b1 / 3 == b2 / 3 && (a1 != a2 || b1 != b2)
    ensures 3 * (a1 % 3) + b1 % 3 != 3 * (a2 % 3) + b2 % 3
  {
  }

  lemma PatternRowDiffers(r: int, c1: int, c2: int)
    requires InGrid(r, c1) && InGrid(r, c2) && c1 != c2
    ensures PatternDigit(r, c1) != PatternDigit(r, c2)
  {
    ShiftMod9Injective(c1, c2, 3 * (r % 3) + r / 3);
  }

  lemma PatternColumnDiffers(r1: int, r2: int, c: int)
    requires InGrid(r1, c) && InGrid(r2, c) && r1 != r2
    ensures PatternDigit(r1, c) != PatternDigit(r2, c)
  {
    var x1, x2 := 3 * (r1 % 3) + r1 / 3, 3 * (r2 % 3) + r2 / 3;
    assert x1 != x2 by {
      SplitBy3(r1 % 3, r1 / 3, r2 % 3, r2 / 3);
    }
    ShiftMod9Injective(x1, x2, c);
  }

  lemma PatternBoxDiffers(r1: int, c1: int, r2: int, c2: int)
    requires InGrid(r1, c1) && InGrid(r2, c2) && (r1 != r2 || c1 != c2)
    requires r1 / 3 == r2 / 3 && c1 / 3 == c2 / 3
    ensures PatternDigit(r1, c1) != PatternDigit(r2, c2)
  {
    var y1, y2 := 3 * (r1 % 3) + c1 % 3, 3 * (r2 % 3) + c2 % 3;
    var k := r1 / 3 + 3 * (c1 / 3);
    SplitBy3(r1, c1, r2, c2);
    assert 3 * (r1 % 3) + r1 / 3 + c1 == y1 + k;
    assert 3 * (r2 % 3) + r2 / 3 + c2 == y2 + k;
    ShiftMod9Injective(y1, y2, k);
  }

  lemma PatternDigitsDiffer(r1: int, c1: int, r2: int, c2: int)
    requires InGrid(r1, c1) && InGrid(r2, c2) && (r1 != r2 || c1 != c2)
    requires SameUnit(r1, c1, r2, c2)
    ensures PatternDigit(r1, c1) != PatternDigit(r2, c2)
  {
    if r1 == r2 {
      PatternRowDiffers(r1, c1, c2);
    } else if c1 == c2 {
      PatternColumnDiffers(r1, r2, c1);
    } else {
      PatternBoxDiffers(r1, c1, r2, c2);
    }
  }

  lemma PatternIsSolved()
    ensures Solved(Pattern())
  {
    var s := Pattern();
    forall p | 0 <= p < Cells ensures 1 <= s[p] <= 9 {
    }
    forall r1, c1, r2, c2 |
      InGrid(r1, c1) && InGrid(r2, c2) && (r1 != r2 || c1 != c2) &&
      SameUnit(r1, c1, r2, c2) && At(s, r1, c1) != 0
      ensures At(s, r1, c1) != At(s, r2, c2)
    {
      PatternAt(r1, c1);
      PatternAt(r2, c2);
      PatternDigitsDiffer(r1, c1, r2, c2);
    }
  }
}
