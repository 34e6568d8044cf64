/** Candidate digits of a cell and the "naked single" rule of the hint engine. */
module Hints {
  import opened Board
  import Validator

  /** The digits 1..9 that the placement check accepts at (row, col). */
  ghost function AllowedDigits(g: seq<int>, row: int, col: int): set<int>
    requires |g| == Cells && InGrid(row, col)
  {
    set n | 1 <= n <= 9 && Allowed(g, row, col, n)
  }

  /** The members of `digits` among 1..k, in increasing order. */
  function InOrder(digits: set<int>, k: int): seq<int>
    decreases k
  {
    if k <= 0 then [] else InOrder(digits, k - 1) + (if k in digits then [k] else [])
  }

  /** The candidate digits of (row, col), in the order the hint engine tries them. */
  ghost function Candidates(g: seq<int>, row: int, col: int): seq<int>
    requires |g| == Cells && InGrid(row, col)
  {
    InOrder(AllowedDigits(g, row, col), 9)
  }

  /** An empty cell with exactly one candidate digit. */
  ghost predicate NakedSingle(g: seq<int>, row: int, col: int)
    requires |g| == Cells && InGrid(row, col)
  {
    At(g, row, col) == 0 && |Candidates(g, row, col)| == 1
  }

  /** InOrder(digits, k) lists exactly the members of digits in 1..k, strictly increasing. */
  lemma {:induction false} InOrderSpec(digits: set<int>, k: int)
    ensures forall n :: n in InOrder(digits, k) <==> 1 <= n <= k && n in digits
    ensures forall i, j :: 0 <= i < j < |InOrder(digits, k)| ==>
      InOrder(digits, k)[i] < InOrder(digits, k)[j]
    decreases k
  {
    if k > 0 {
      var prev := InOrder(digits, k - 1);
      InOrderSpec(digits, k - 1);
      forall i | 0 <= i < |prev| ensures prev[i] < k {
        assert prev[i] in prev;
      }
    }
  }

  /** A one-element list names the whole set. */
  lemma InOrderOneIsSingleton(digits: set<int>)
    requires forall n :: n in digits ==> 1 <= n <= 9
    requires |InOrder(digits, 9)| == 1
    ensures digits == {InOrder(digits, 9)[0]}
  {
    var cs := InOrder(digits, 9);
    InOrderSpec(digits, 9);
    forall n | n in digits ensures n == cs[0] {
      assert n in cs;
    }
    assert cs[0] in cs;
  }

  /** The singleton {n} lists as [n] once n is within range. */
  lemma {:induction false} InOrderOfSingleton(n: int, k: int)
    requires 1 <= n
    ensures InOrder({n}, k) == if n <= k then [n] else []
    decreases k
  {
    if k > 0 {
      InOrderOfSingleton(n, k - 1);
    }
  }

  /** A set of digits drawn from 1..9 lists as one element exactly when it is a singleton. */
  lemma InOrderSingleton(digits: set<int>)
    requires forall n :: n in digits ==> 1 <= n <= 9
    ensures |InOrder(digits, 9)| == 1 <==> exists n :: digits == {n}
  {
    if |InOrder(digits, 9)| == 1 {
      InOrderOneIsSingleton(digits);
    }
    if exists n :: digits == {n} {
      var n :| digits == {n};
      assert n in digits;
      InOrderOfSingleton(n, 9);
    }
  }

  /**
   * A naked single is an empty cell where exactly one digit of 1..9 passes the
   * placement check.
   */
  lemma NakedSingleIffUniqueCandidate(g: seq<int>, row: int, col: int)
    requires |g| == Cells && InGrid(row, col)
    ensures NakedSingle(g, row, col) <==>
      At(g, row, col) == 0 && exists n :: AllowedDigits(g, row, col) == {n}
  {
    InOrderSingleton(AllowedDigits(g, row, col));
  }

  /**
   * The possibilities list the hint engine builds for (row, col): each digit
   * 1..9 in turn, kept when the placement check accepts it.
   */
  method Possibilities(board: array<int>, row: int, col: int) returns (possibilities: seq<int>)
    requires board.Length == Cells && InGrid(row, col)
    ensures possibilities == Candidates(board[..], row, col)
  {
    possibilities := [];
    for n := 1 to 10
      invariant possibilities == InOrder(AllowedDigits(board[..], row, col), n - 1)
    {
      var valid := Validator.IsValid(board, row, col, n);
      if valid {
        possibilities := possibilities + [n];
      }
    }
  }
}
