/**
 * The deterministic part of the puzzle generator: the placement test, the
 * in-place backtracking solver over a 9x9 board, and the table that turns a
 * difficulty name into the number of cells to blank out.
 */
module Sudoku {

  const GridSize := 9

  /** A board is a 9x9 grid of integers; 0 marks an empty cell. */
  predicate IsBoard(b: array2<int>) {
    b.Length0 == GridSize && b.Length1 == GridSize
  }

  predicate InRange(row: int, col: int) {
    0 <= row < GridSize && 0 <= col < GridSize
  }

  /** Top-left coordinate of the 3x3 box holding coordinate x, computed as the solver does. */
  function BoxOrigin(x: int): (o: int)
    requires 0 <= x < GridSize
    ensures o == 3 * (x / 3)
    ensures 0 <= o <= x < o + 3 <= GridSize
  {
    x - x % 3
  }

  /** (r, c) shares a row, a column or a 3x3 box with (row, col). */
  predicate InUnit(row: int, col: int, r: int, c: int) {
    r == row || c == col || (r / 3 == row / 3 && c / 3 == col / 3)
  }

  /** Placing num at (row, col) is safe: num occurs nowhere in that cell's row, column or box. */
  ghost predicate Safe(b: array2<int>, row: int, col: int, num: int)
    reads b
    requires IsBoard(b) && InRange(row, col)
  {
    forall r, c :: InRange(r, c) && InUnit(row, col, r, c) ==> b[r, c] != num
  }

  /** The value at (row, col) differs from every other cell of its row, column and box. */
  ghost predicate Distinct(b: array2<int>, row: int, col: int)
    reads b
    requires IsBoard(b) && InRange(row, col)
  {
    forall r, c :: InRange(r, c) && InUnit(row, col, r, c) && (r != row || c != col) ==> b[r, c] != b[row, col]
  }

  /** The row scan, the column scan and the box scan, each returning false on the first hit. */
  method IsSafe(board: array2<int>, row: int, col: int, num: int) returns (safe: bool)
    requires IsBoard(board) && InRange(row, col)
    ensures safe <==> Safe(board, row, col, num)
  {
    for x := 0 to GridSize
      invariant forall c :: 0 <= c < x ==> board[row, c] != num
    {
      if board[row, x] == num {
        return false;
      }
    }
    for x := 0 to GridSize
      invariant forall r :: 0 <= r < x ==> board[r, col] != num
    {
      if board[x, col] == num {
        return false;
      }
    }
    var startRow := BoxOrigin(row);
    var startCol := BoxOrigin(col);
    for i := 0 to 3
      invariant forall r, c :: startRow <= r < startRow + i && startCol <= c < startCol + 3 ==> board[r, c] != num
    {
      var r := i + startRow;
      for j := 0 to 3
        invariant forall c :: startCol <= c < startCol + j ==> board[r, c] != num
        invariant forall r, c :: startRow <= r < startRow + i && startCol <= c < startCol + 3 ==> board[r, c] != num
      {
        if board[i + startRow, j + startCol] == num {
          return false;
        }
      }
    }
    forall r, c | InRange(r, c) && InUnit(row, col, r, c)
      ensures board[r, c] != num
    {
      if r != row && c != col {
        assert startRow <= r < startRow + 3 && startCol <= c < startCol + 3;
      }
    }
    return true;
  }

  /** The board read row by row, cell (r, c) at position r * 9 + c. */
  ghost function Flatten(b: array2<int>): (s: seq<int>)
    reads b
    requires IsBoard(b)
    ensures |s| == GridSize * GridSize
    ensures forall k :: 0 <= k < |s| ==> s[k] == b[k / GridSize, k % GridSize]
  {
    seq(GridSize * GridSize, k requires 0 <= k < GridSize * GridSize reads b => b[k / GridSize, k % GridSize])
  }

  /** Number of empty cells: the solver's termination measure. */
  function ZeroCount(s: seq<int>): (n: nat)
    ensures n <= |s|
  {
    if s == [] then 0 else (if s[0] == 0 then 1 else 0) + ZeroCount(s[1..])
  }

  /** Filling one empty cell with a non-zero value removes exactly one empty cell. */
  lemma {:induction false} ZeroCountFill(s: seq<int>, k: nat, v: int)
    requires k < |s| && s[k] == 0 && v != 0
    ensures ZeroCount(s[k := v]) + 1 == ZeroCount(s)
  {
    if k > 0 {
      assert s[k := v][1..] == s[1..][k - 1 := v];
      ZeroCountFill(s[1..], k - 1, v);
    } else {
      assert s[k := v][1..] == s[1..];
    }
  }

  /**
   * The solver's row-major scan for the first empty cell. When it finds one,
   * every cell before it is filled; when it finds none, the board is full.
   */
  method FindEmpty(board: array2<int>) returns (found: bool, i: int, j: int)
    requires IsBoard(board)
    ensures found ==> InRange(i, j) && board[i, j] == 0
    ensures found ==> forall r, c :: InRange(r, c) && (r < i || (r == i && c < j)) ==> board[r, c] != 0
    ensures !found ==> forall r, c :: InRange(r, c) ==> board[r, c] != 0
  {
    for row := 0 to GridSize
      invariant forall r, c :: 0 <= r < row && 0 <= c < GridSize ==> board[r, c] != 0
    {
      for col := 0 to GridSize
        invariant forall r, c :: 0 <= r < row && 0 <= c < GridSize ==> board[r, c] != 0
        invariant forall c :: 0 <= c < col ==> board[row, c] != 0
      {
        if board[row, col] == 0 {
          return true, row, col;
        }
      }
    }
    return false, 0, 0;
  }

  /**
   * Backtracking search: find the first empty cell in row-major order, try the
   * digits 1..9 that are safe there, recurse, and undo the trial on failure.
   */
  method SolveSudoku(board: array2<int>) returns (solved: bool)
    requires IsBoard(board)
    modifies board
    decreases ZeroCount(Flatten(board)), 1
    ensures forall r, c :: InRange(r, c) && old(board[r, c]) != 0 ==> board[r, c] == old(board[r, c])
    ensures forall r, c :: InRange(r, c) && old(board[r, c]) == 0 ==> board[r, c] == 0 || 1 <= board[r, c] <= GridSize
    ensures !solved ==> forall r, c :: InRange(r, c) ==> board[r, c] == old(board[r, c])
    ensures solved ==> forall r, c :: InRange(r, c) ==> board[r, c] != 0
    ensures solved ==> forall r, c :: InRange(r, c) && old(board[r, c]) == 0 ==> Distinct(board, r, c)
  {
    var found, i, j := FindEmpty(board);
    if !found {
      return true;
    }
    ghost var entry := Flatten(board);
    for num := 1 to GridSize + 1
      invariant forall r, c :: InRange(r, c) ==> board[r, c] == old(board[r, c])
    {
      var safe := IsSafe(board, i, j, num);
      if safe {
        assert Flatten(board) == entry;
        var done := TryDigit(board, i, j, num);
        if done {
          return true;
        }
      }
    }
    return false;
  }

  /**
   * One trial of the solver's digit loop: write a safe num into the empty
   * cell (i, j), recurse, and on failure write 0 back.
   */
  method TryDigit(board: array2<int>, i: int, j: int, num: int) returns (solved: bool)
    requires IsBoard(board) && InRange(i, j) && board[i, j] == 0
    requires 1 <= num <= GridSize && Safe(board, i, j, num)
    modifies board
    decreases ZeroCount(Flatten(board)), 0
    ensures forall r, c :: InRange(r, c) && old(board[r, c]) != 0 ==> board[r, c] == old(board[r, c])
    ensures forall r, c :: InRange(r, c) && old(board[r, c]) == 0 ==> board[r, c] == 0 || 1 <= board[r, c] <= GridSize
    ensures !solved ==> forall r, c :: InRange(r, c) ==> board[r, c] == old(board[r, c])
    ensures solved ==> forall r, c :: InRange(r, c) ==> board[r, c] != 0
    ensures solved ==> forall r, c :: InRange(r, c) && old(board[r, c]) == 0 ==> Distinct(board, r, c)
  {
    ghost var entry := Flatten(board);
    board[i, j] := num;
    ghost var written := Grid(board);
    FlattenWrite(entry, board, i, j, num);
    ZeroCountFill(entry, i * GridSize + j, num);
    solved := SolveSudoku(board);
    if solved {
      SuccessDistinct(written, board, i, j, num);
    } else {
      board[i, j] := 0;
    }
  }

  /** Writing v at (i, j) changes the flattened board at position i * 9 + j only. */
  lemma FlattenWrite(entry: seq<int>, board: array2<int>, i: int, j: int, v: int)
    requires IsBoard(board) && InRange(i, j) && |entry| == GridSize * GridSize
    requires forall k :: 0 <= k < |entry| && k != i * GridSize + j ==> board[k / GridSize, k % GridSize] == entry[k]
    requires board[i, j] == v
    ensures Flatten(board) == entry[i * GridSize + j := v]
  {
  }

  /** The board as a 9x9 value, row by row. */
  ghost function Grid(b: array2<int>): (g: seq<seq<int>>)
    reads b
    requires IsBoard(b)
    ensures |g| == GridSize && forall r :: 0 <= r < GridSize ==> |g[r]| == GridSize
    ensures forall r, c :: InRange(r, c) ==> g[r][c] == b[r, c]
  {
    seq(GridSize, r requires 0 <= r < GridSize reads b => seq(GridSize, c requires 0 <= c < GridSize reads b => b[r, c]))
  }

  /**
   * The step that makes the solver's success case sound. `written` is the
   * board just before the recursive call, holding a safe num at (i, j); the
   * call kept its non-zero cells and made each of its empty cells distinct
   * from its units. Then (i, j) is distinct from its units too.
   */
  lemma SuccessDistinct(written: seq<seq<int>>, board: array2<int>, i: int, j: int, num: int)
    requires IsBoard(board) && InRange(i, j)
    requires |written| == GridSize && forall r :: 0 <= r < GridSize ==> |written[r]| == GridSize
    requires written[i][j] == num
    requires forall r, c :: InRange(r, c) && InUnit(i, j, r, c) && (r != i || c != j) ==> written[r][c] != num
    requires forall r, c :: InRange(r, c) && written[r][c] != 0 ==> board[r, c] == written[r][c]
    requires forall r, c :: InRange(r, c) && written[r][c] == 0 ==> Distinct(board, r, c)
    ensures Distinct(board, i, j)
  {
    forall r, c | InRange(r, c) && InUnit(i, j, r, c) && (r != i || c != j)
      ensures board[r, c] != board[i, j]
    {
      if written[r][c] == 0 {
        assert Distinct(board, r, c);
        assert InUnit(r, c, i, j);
      }
    }
  }

  /**
   * The argument GenerateSudoku passes to rand.Intn for a difficulty, or 0
   * where it draws no random number (an unknown difficulty).
   */
  function RollBound(difficulty: string): nat {
    if difficulty == "beginner" then 5
    else if difficulty == "easy" then 5
    else if difficulty == "medium" then 5
    else if difficulty == "hard" then 4
    else if difficulty == "expert" then 3
    else 0
  }

  /** What rand.Intn(n) may return: a value in [0, n). No draw means any roll is ignored. */
  predicate RollAllowed(difficulty: string, roll: int) {
    RollBound(difficulty) == 0 || 0 <= roll < RollBound(difficulty)
  }

  /** The documented number of blanked cells per difficulty, lowest and highest. */
  function HoleRange(difficulty: string): (int, int) {
    if difficulty == "beginner" then (30, 34)
    else if difficulty == "easy" then (40, 44)
    else if difficulty == "medium" then (48, 52)
    else if difficulty == "hard" then (53, 56)
    else if difficulty == "expert" then (57, 59)
    else (48, 48)
  }

  /** The difficulty switch of GenerateSudoku, with rand.Intn's result passed in as roll. */
  function Holes(difficulty: string, roll: int): (holes: int)
    requires RollAllowed(difficulty, roll)
    ensures HoleRange(difficulty).0 <= holes <= HoleRange(difficulty).1
    ensures 0 < holes < GridSize * GridSize
  {
    if difficulty == "beginner" then 30 + roll
    else if difficulty == "easy" then 40 + roll
    else if difficulty == "medium" then 48 + roll
    else if difficulty == "hard" then 53 + roll
    else if difficulty == "expert" then 57 + roll
    else 48
  }

  /** Every count in a difficulty's documented range is produced by some roll. */
  lemma HolesCoverRange(difficulty: string, holes: int)
    requires HoleRange(difficulty).0 <= holes <= HoleRange(difficulty).1
    ensures exists roll :: RollAllowed(difficulty, roll) && Holes(difficulty, roll) == holes
  {
    var roll := holes - HoleRange(difficulty).0;
    assert RollAllowed(difficulty, roll) && Holes(difficulty, roll) == holes;
  }
}
