/** The game state: the solution, the carved puzzle and the player's board. */
module Session {
  import opened Board
  import Generator
  import Carver
  import Hints

  /** Cells emptied for a difficulty: "easy" 30, "medium" 45, anything else 55. */
  function RemovalCount(difficulty: string): (count: nat)
    ensures difficulty == "easy" ==> count == 30
    ensures difficulty == "medium" ==> count == 45
    ensures difficulty != "easy" && difficulty != "medium" ==> count == 55
    ensures count < Cells
  {
    if difficulty == "easy" then 30 else if difficulty == "medium" then 45 else 55
  }

  /**
   * Player cells the correctness check flags: not fixed by the puzzle, not
   * empty, and different from the solution.
   */
  ghost function Mistakes(current: seq<int>, initial: seq<int>, solution: seq<int>): set<int>
    requires |current| == |initial| == |solution| == Cells
  {
    MistakesBefore(current, initial, solution, Cells)
  }

  /** The flagged cells among the first n in row-major order. */
  ghost function MistakesBefore(current: seq<int>, initial: seq<int>, solution: seq<int>, n: int): set<int>
    requires |current| == |initial| == |solution| == Cells
  {
    set p | 0 <= p < n && p < Cells && initial[p] == 0 && current[p] != 0 && current[p] != solution[p]
  }

  /** One more cell of the scan adds one to the empty count exactly when it is empty. */
  lemma ZeroCountStep(g: seq<int>, n: int)
    requires 0 <= n < |g|
    ensures ZeroCount(g[..n + 1]) == ZeroCount(g[..n]) + (if g[n] == 0 then 1 else 0)
  {
    assert g[..n + 1] == g[..n] + [g[n]];
  }

  /** One more cell of the scan adds it to the flagged cells exactly when it is flagged. */
  lemma MistakesBeforeStep(current: seq<int>, initial: seq<int>, solution: seq<int>, n: int)
    requires |current| == |initial| == |solution| == Cells && 0 <= n < Cells
    ensures MistakesBefore(current, initial, solution, n + 1) ==
      MistakesBefore(current, initial, solution, n) +
      (if initial[n] == 0 && current[n] != 0 && current[n] != solution[n] then {n} else {})
  {
  }

  /** Nothing is flagged exactly when every filled open cell holds the solution's digit. */
  lemma NoMistakesMeansAgreement(current: seq<int>, initial: seq<int>, solution: seq<int>)
    requires |current| == |initial| == |solution| == Cells
    ensures Mistakes(current, initial, solution) == {} <==>
      forall p :: 0 <= p < Cells && initial[p] == 0 && current[p] != 0 ==> current[p] == solution[p]
  {
    if Mistakes(current, initial, solution) == {} {
      forall p | 0 <= p < Cells && initial[p] == 0 && current[p] != 0 ensures current[p] == solution[p] {
        assert p !in Mistakes(current, initial, solution);
      }
    }
  }

  /** A board filled in from the solution has no empty cell and nothing flagged. */
  lemma SolutionFillHasNoMistakes(initial: seq<int>, solution: seq<int>)
    requires Solved(solution) && |initial| == Cells
    ensures Mistakes(solution, initial, solution) == {}
    ensures ZeroCount(solution) == 0
  {
    assert 0 !in solution;
  }

  /**
   * Writing a wrong digit into one open cell of a board with nothing flagged
   * makes exactly that cell flagged.
   */
  lemma OneWrongEntryIsFlagged(current: seq<int>, initial: seq<int>, solution: seq<int>, p: int, v: int)
    requires |current| == |initial| == |solution| == Cells && 0 <= p < Cells
    requires Mistakes(current, initial, solution) == {}
    requires initial[p] == 0 && v != 0 && v != solution[p]
    ensures Mistakes(current[p := v], initial, solution) == {p}
  {
    var m := Mistakes(current[p := v], initial, solution);
    forall q | q != p ensures q in m <==> q in Mistakes(current, initial, solution) {
    }
    assert p in m;
  }

  /** What a hint did: a naked single, a revealed cell, or nothing. */
  datatype Hint =
    | Logical(row: int, col: int, digit: int)
    | Reveal(row: int, col: int, digit: int)
    | BoardIsFull

  class Game {
    var solution: array<int>
    var initialBoard: array<int>
    var currentBoard: array<int>

    /**
     * The three boards are separate arrays; the solution is a valid complete
     * Sudoku; every fixed cell (non-zero in the puzzle) holds the solution's
     * digit and is never changed on the player's board.
     */
    ghost predicate Valid()
      reads this, solution, initialBoard, currentBoard
    {
      solution != initialBoard && solution != currentBoard && initialBoard != currentBoard &&
      Solved(solution[..]) && IsBoard(initialBoard[..]) && IsBoard(currentBoard[..]) &&
      Extends(solution[..], initialBoard[..]) &&
      Extends(currentBoard[..], initialBoard[..])
    }

    /**
     * The game's initGame: generate a solution, carve the puzzle from a copy
     * of it by the difficulty's removal count, and start the player's board as
     * a copy of the puzzle.
     */
    constructor (difficulty: string)
      ensures Valid()
      ensures fresh(solution) && fresh(initialBoard) && fresh(currentBoard)
      ensures ZeroCount(initialBoard[..]) == RemovalCount(difficulty)
      ensures currentBoard[..] == initialBoard[..]
    {
      var generated := Generator.GenerateCompleteBoard();
      var puzzle := Copy(generated);
      assert ZeroCount(puzzle[..]) == 0;
      Carver.RemoveNumbers(puzzle, RemovalCount(difficulty));
      var progress := Copy(puzzle);
      solution, initialBoard, currentBoard := generated, puzzle, progress;
    }

    /** Is (row, col) fixed by the puzzle? */
    predicate IsFixed(row: int, col: int)
      requires InGrid(row, col) && initialBoard.Length == Cells
      reads this, initialBoard
    {
      initialBoard[Idx(row, col)] != 0
    }

    /**
     * The board update of the game's fillCell: a fixed cell is left alone;
     * otherwise (row, col) becomes `value`, 0 clearing it.
     */
    method FillCell(row: int, col: int, value: int)
      requires Valid() && InGrid(row, col) && IsDigit(value)
      modifies currentBoard
      ensures Valid()
      ensures IsFixed(row, col) ==> currentBoard[..] == old(currentBoard[..])
      ensures !IsFixed(row, col) ==> currentBoard[..] == old(currentBoard[..])[Idx(row, col) := value]
    {
      IdxInRange(row, col);
      if initialBoard[Idx(row, col)] != 0 {
        return;
      }
      currentBoard[Idx(row, col)] := value;
    }

    /**
     * The counting pass of the game's checkSolution: the number of empty
     * cells, the cells flagged as wrong, and whether none is.
     */
    method CheckSolution() returns (isCorrect: bool, emptyCells: nat, errors: set<int>)
      requires Valid()
      ensures emptyCells == ZeroCount(currentBoard[..])
      ensures errors == Mistakes(currentBoard[..], initialBoard[..], solution[..])
      ensures isCorrect <==> errors == {}
      ensures isCorrect <==> forall p :: 0 <= p < Cells && initialBoard[p] == 0 && currentBoard[p] != 0 ==>
        currentBoard[p] == solution[p]
    {
      ghost var cur := currentBoard[..];
      isCorrect := true;
      emptyCells := 0;
      errors := {};
      for r := 0 to 9
        invariant emptyCells == ZeroCount(cur[..Idx(r, 0)])
        invariant errors == MistakesBefore(cur, initialBoard[..], solution[..], Idx(r, 0))
        invariant isCorrect <==> errors == {}
      {
        for c := 0 to 9
          invariant emptyCells == ZeroCount(cur[..Idx(r, c)])
          invariant errors == MistakesBefore(cur, initialBoard[..], solution[..], Idx(r, c))
          invariant isCorrect <==> errors == {}
        {
          var index := Idx(r, c);
          var val := currentBoard[index];
          ZeroCountStep(cur, index);
          MistakesBeforeStep(cur, initialBoard[..], solution[..], index);
          if val == 0 {
            emptyCells := emptyCells + 1;
          }
          if initialBoard[index] == 0 && val != 0 {
            if val != solution[index] {
              errors := errors + {index};
              isCorrect := false;
            }
          }
        }
      }
      assert cur[..Idx(9, 0)] == cur;
      NoMistakesMeansAgreement(cur, initialBoard[..], solution[..]);
    }

    /**
     * The board update of the game's provideHint.  The first empty cell in
     * row-major order with exactly one candidate digit receives the solution's
     * digit; failing that, some empty cell does; a board without empty cells
     * is left as it is.
     */
    method ProvideHint() returns (hint: Hint)
      requires Valid()
      modifies currentBoard
      ensures Valid()
      ensures hint.Logical? <==> exists r, c :: InGrid(r, c) && Hints.NakedSingle(old(currentBoard[..]), r, c)
      ensures hint.Logical? ==>
        InGrid(hint.row, hint.col) && Hints.NakedSingle(old(currentBoard[..]), hint.row, hint.col) &&
        forall r, c :: InGrid(r, c) && Idx(r, c) < Idx(hint.row, hint.col) ==>
          !Hints.NakedSingle(old(currentBoard[..]), r, c)
      ensures hint.BoardIsFull? <==> IsBoardFull(old(currentBoard[..]))
      ensures !hint.BoardIsFull? ==>
        InGrid(hint.row, hint.col) && old(currentBoard[Idx(hint.row, hint.col)]) == 0 &&
        hint.digit == solution[Idx(hint.row, hint.col)] &&
        currentBoard[..] == old(currentBoard[..])[Idx(hint.row, hint.col) := hint.digit]
      ensures hint.BoardIsFull? ==> currentBoard[..] == old(currentBoard[..])
    {
      ghost var g := currentBoard[..];
      for r := 0 to 9
        invariant currentBoard[..] == g
        invariant forall r', c' :: InGrid(r', c') && Idx(r', c') < Idx(r, 0) ==> !Hints.NakedSingle(g, r', c')
      {
        for c := 0 to 9
          invariant currentBoard[..] == g
          invariant forall r', c' :: InGrid(r', c') && Idx(r', c') < Idx(r, c) ==> !Hints.NakedSingle(g, r', c')
        {
          IdxInRange(r, c);
          if currentBoard[Idx(r, c)] == 0 {
            var possibilities := Hints.Possibilities(currentBoard, r, c);
            if |possibilities| == 1 {
              var correctNum := solution[Idx(r, c)];
              FillCell(r, c, correctNum);
              return Logical(r, c, correctNum);
            }
          }
          forall r', c' | InGrid(r', c') && Idx(r', c') <= Idx(r, c) ensures !Hints.NakedSingle(g, r', c') {
            IdxInjective(r', c', r, c);
          }
        }
      }
      var emptyIndices: seq<int> := [];
      for idx := 0 to Cells
        invariant currentBoard[..] == g
        invariant forall i :: 0 <= i < |emptyIndices| ==> 0 <= emptyIndices[i] < idx && g[emptyIndices[i]] == 0
        invariant forall p :: 0 <= p < idx && g[p] == 0 ==> p in emptyIndices
      {
        if currentBoard[idx] == 0 {
          emptyIndices := emptyIndices + [idx];
        }
      }
      if |emptyIndices| > 0 {
        var k :| 0 <= k < |emptyIndices|;
        var randIdx := emptyIndices[k];
        var r, c := randIdx / 9, randIdx % 9;
        assert Idx(r, c) == randIdx;
        var digit := solution[Idx(r, c)];
        FillCell(r, c, digit);
        return Reveal(r, c, digit);
      }
      return BoardIsFull;
    }
  }
}
