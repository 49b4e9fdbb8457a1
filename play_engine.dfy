/**
 * The browser-side play engine: a grid of 81 cells, each empty, holding a
 * committed value, or showing pencil marks; the selected cell; the pause
 * flag; the second counter with its interval; and the check of the grid
 * against the solution the server sent.
 *
 * The page keeps a cell's state in its DOM node: the text of its final-value
 * element (empty or one digit), the "visible" class on its nine pencil marks,
 * and the "pre-filled" class. Here a cell is a Cell value with those three
 * parts, and the grid is an array of 81 of them, index r * 9 + c for row r
 * and column c.
 */
module PlayEngine {
  import opened Common

  const Side := 9
  const CellCount := 81

  type Digit = d: int | 1 <= d <= 9 witness 1
  type CellIndex = k: int | 0 <= k < 81 witness 0

  /** The keys the key handler tells apart: a digit 1..9, Backspace, Delete, anything else. */
  datatype Key = DigitKey(digit: Digit) | Backspace | Delete | OtherKey

  /**
   * One cell: whether it has the pre-filled class, its final value (0 for
   * empty text), and the digits whose pencil marks are visible.
   */
  datatype Cell = Cell(prefilled: bool, value: int, marks: set<int>)

  predicate MarksInRange(marks: set<int>) {
    forall m :: m in marks ==> 1 <= m <= 9
  }

  /**
   * The states the handlers can reach: marks name digits; a given cell has a
   * value and no marks; a player cell holds a digit or nothing, and never a
   * value together with visible marks.
   */
  predicate CellOk(c: Cell) {
    && MarksInRange(c.marks)
    && (c.prefilled ==> c.value != 0 && c.marks == {})
    && (!c.prefilled ==> 0 <= c.value <= 9 && (c.value != 0 ==> c.marks == {}))
  }

  /** The three input states of a cell. */
  datatype Mode = Empty | Value(v: int) | Candidates(digits: set<int>)

  predicate ModeOk(m: Mode) {
    match m
    case Empty => true
    case Value(v) => 1 <= v <= 9
    case Candidates(s) => s != {} && MarksInRange(s)
  }

  /** The input state a cell shows; visible marks are looked at before the value, as the key handler does. */
  function ModeOf(c: Cell): Mode {
    if c.marks != {} then Candidates(c.marks)
    else if c.value != 0 then Value(c.value)
    else Empty
  }

  /**
   * The input state machine as designed: an empty cell takes the digit; the
   * same digit again changes nothing; a different digit turns the value into
   * two candidates; with candidates showing, the digit's candidate is toggled,
   * and removing the last one empties the cell.
   */
  function Step(m: Mode, d: Digit): (r: Mode)
    ensures ModeOk(m) ==> ModeOk(r)
  {
    match m
    case Empty => Value(d)
    case Value(v) => if v == d then m else Candidates({v, d})
    case Candidates(s) =>
      if d !in s then Candidates(s + {d})
      else if s == {d} then Empty
      else Candidates(s - {d})
  }

  /** A digit key on a selected player cell, as the key handler applies it to the cell's nodes. */
  function Press(c: Cell, d: Digit): (r: Cell)
    ensures r.prefilled == c.prefilled
    ensures CellOk(c) && !c.prefilled ==> CellOk(r) && ModeOf(r) == Step(ModeOf(c), d)
  {
    if c.marks != {} then
      c.(marks := if d in c.marks then c.marks - {d} else c.marks + {d})
    else if c.value != 0 then
      if c.value != d then c.(value := 0, marks := {c.value, d}) else c
    else
      c.(value := d)
  }

  /** Backspace or Delete on a selected player cell: no value, no visible mark. */
  function Erase(c: Cell): (r: Cell)
    ensures r.prefilled == c.prefilled && ModeOf(r) == Empty
    ensures !c.prefilled ==> CellOk(r)
  {
    c.(value := 0, marks := {})
  }

  /** The cell populateGrid leaves for puzzle entry v: given iff v is not 0, showing v, no marks. */
  function Loaded(v: int): (c: Cell)
    ensures CellOk(c) && c.marks == {}
    ensures c.prefilled <==> v != 0
    ensures ModeOf(c) == if v == 0 then Empty else Value(v)
  {
    Cell(v != 0, v, {})
  }

  lemma PressEmptyCommits(c: Cell, d: Digit)
    requires c.value == 0 && c.marks == {}
    ensures Press(c, d) == c.(value := d)
  {
  }

  lemma PressSameValueKeeps(c: Cell, d: Digit)
    requires c.marks == {} && c.value == d
    ensures Press(c, d) == c
  {
  }

  lemma PressOtherValueSplits(c: Cell, d: Digit)
    requires c.marks == {} && c.value != 0 && c.value != d
    ensures Press(c, d) == c.(value := 0, marks := {c.value, d})
  {
  }

  /** With marks showing only the digit's own mark changes, and the value is left alone. */
  lemma PressTogglesMark(c: Cell, d: Digit)
    requires c.marks != {}
    ensures Press(c, d).value == c.value
    ensures forall m :: m in Press(c, d).marks <==> (m in c.marks <==> m != d)
  {
  }

  /** Toggling the same mark twice restores the cell, unless the first toggle removed the last mark. */
  lemma PressTwiceRestoresMarks(c: Cell, d: Digit)
    requires c.marks != {} && Press(c, d).marks != {}
    ensures Press(Press(c, d), d) == c
  {
  }

  /** Removing the last visible mark of a player cell leaves it empty. */
  lemma PressLastMarkEmpties(c: Cell, d: Digit)
    requires CellOk(c) && !c.prefilled && c.marks == {d}
    ensures ModeOf(Press(c, d)) == Empty && Press(c, d).value == 0
  {
  }

  lemma EraseIdempotent(c: Cell)
    ensures Erase(Erase(c)) == Erase(c)
  {
  }

  /** Typing 4, 6, 4, 6 into an empty cell: the value 4, candidates 4 and 6, the candidate 6, empty. */
  lemma PressScenario()
    ensures var c0 := Cell(false, 0, {});
            var c1 := Press(c0, 4);
            var c2 := Press(c1, 6);
            var c3 := Press(c2, 4);
            var c4 := Press(c3, 6);
            ModeOf(c1) == Value(4) && ModeOf(c2) == Candidates({4, 6})
            && ModeOf(c3) == Candidates({6}) && ModeOf(c4) == Empty
  {
    var c2 := Press(Press(Cell(false, 0, {}), 4), 6);
    assert c2.marks == {4, 6};
    assert c2.marks - {4} == {6};
  }

  // ----- Checking the grid -----

  datatype Verdict = Incomplete | Correct | Incorrect

  /** A 9x9 table of integers, as the server sends a puzzle or a solution. */
  predicate IsGrid(g: seq<seq<int>>) {
    |g| == Side && forall i :: 0 <= i < Side ==> |g[i]| == Side
  }

  function CellAt(grid: seq<Cell>, r: int, c: int): Cell
    requires |grid| == CellCount && 0 <= r < Side && 0 <= c < Side
  {
    grid[r * Side + c]
  }

  /** Every cell shows a value (marks alone do not count). */
  predicate Filled(grid: seq<Cell>) {
    forall k :: 0 <= k < |grid| ==> grid[k].value != 0
  }

  /** Every cell whose solution entry is not 0 shows exactly that entry. */
  predicate MatchesSolution(grid: seq<Cell>, solution: seq<seq<int>>)
    requires |grid| == CellCount && IsGrid(solution)
  {
    forall r, c :: 0 <= r < Side && 0 <= c < Side && solution[r][c] != 0 ==> CellAt(grid, r, c).value == solution[r][c]
  }

  /** The verdict of checkSolution: completeness first, then agreement with the solution. */
  function Evaluate(grid: seq<Cell>, solution: seq<seq<int>>): Verdict
    requires |grid| == CellCount && IsGrid(solution)
  {
    if !Filled(grid) then Incomplete
    else if MatchesSolution(grid, solution) then Correct
    else Incorrect
  }

  /** The grid is filled iff every row and column position holds a value. */
  lemma FilledByRows(grid: seq<Cell>)
    requires |grid| == CellCount
    ensures Filled(grid) <==> forall r, c :: 0 <= r < Side && 0 <= c < Side ==> CellAt(grid, r, c).value != 0
  {
    if forall r, c :: 0 <= r < Side && 0 <= c < Side ==> CellAt(grid, r, c).value != 0 {
      forall k | 0 <= k < CellCount
        ensures grid[k].value != 0
      {
        assert grid[k] == CellAt(grid, k / Side, k % Side);
      }
    }
  }

  /** Incomplete exactly when some cell is empty or shows only pencil marks, whatever the rest holds. */
  lemma EvaluateIncompleteIff(grid: seq<Cell>, solution: seq<seq<int>>)
    requires |grid| == CellCount && IsGrid(solution)
    requires forall k :: 0 <= k < CellCount ==> CellOk(grid[k])
    ensures Evaluate(grid, solution) == Incomplete <==> exists k :: 0 <= k < CellCount && !ModeOf(grid[k]).Value?
  {
    if !Filled(grid) {
      var k :| 0 <= k < CellCount && grid[k].value == 0;
      assert !ModeOf(grid[k]).Value?;
    }
  }

  /** Correct exactly when every cell holds a value and every constrained cell holds its solution entry. */
  lemma EvaluateCorrectIff(grid: seq<Cell>, solution: seq<seq<int>>)
    requires |grid| == CellCount && IsGrid(solution)
    requires forall k :: 0 <= k < CellCount ==> CellOk(grid[k])
    ensures Evaluate(grid, solution) == Correct <==>
      && (forall k :: 0 <= k < CellCount ==> ModeOf(grid[k]).Value?)
      && (forall r, c :: 0 <= r < Side && 0 <= c < Side && solution[r][c] != 0 ==>
            ModeOf(CellAt(grid, r, c)) == Value(solution[r][c]))
  {
    EvaluateIncompleteIff(grid, solution);
  }

  /**
   * A grid that agrees with a fully constrained solution everywhere but at
   * (r0, c0), whose solution entry is 7: entering 7 there is Correct,
   * entering 3 is Incorrect, and leaving it empty is Incomplete.
   */
  lemma EvaluateOneOpenCell(grid: seq<Cell>, solution: seq<seq<int>>, r0: int, c0: int)
    requires |grid| == CellCount && IsGrid(solution) && 0 <= r0 < Side && 0 <= c0 < Side
    requires solution[r0][c0] == 7
    requires forall r, c :: 0 <= r < Side && 0 <= c < Side && (r != r0 || c != c0) ==>
      solution[r][c] != 0 && CellAt(grid, r, c).value == solution[r][c]
    ensures CellAt(grid, r0, c0).value == 7 ==> Evaluate(grid, solution) == Correct
    ensures CellAt(grid, r0, c0).value == 3 ==> Evaluate(grid, solution) == Incorrect
    ensures CellAt(grid, r0, c0).value == 0 ==> Evaluate(grid, solution) == Incomplete
  {
    FilledByRows(grid);
  }

  /** The game state the handlers share. */
  class Game {
    var cells: array<Cell>
    var solution: seq<seq<int>>
    var activeCell: Option<CellIndex>
    var isPaused: bool
    var secondsElapsed: nat
    /** The interval handle last returned by setInterval, 0 while none was ever started. */
    var timerHandle: nat
    /** The intervals the browser still has scheduled. */
    var activeIntervals: set<nat>

    ghost predicate Valid()
      reads this, cells
    {
      && cells.Length == CellCount
      && (forall k :: 0 <= k < CellCount ==> CellOk(cells[k]))
      && (solution == [] || IsGrid(solution))
      && activeIntervals <= {timerHandle}
      && 0 !in activeIntervals
    }

    /** The page after createGrid: 81 empty player cells, no solution, nothing selected, no interval. */
    constructor ()
      ensures Valid() && fresh(cells)
      ensures forall k :: 0 <= k < CellCount ==> cells[k] == Cell(false, 0, {})
      ensures solution == [] && activeCell == None && !isPaused
      ensures secondsElapsed == 0 && activeIntervals == {}
    {
      cells := new Cell[CellCount](_ => Cell(false, 0, {}));
      solution := [];
      activeCell := None;
      isPaused := false;
      secondsElapsed := 0;
      timerHandle := 0;
      activeIntervals := {};
    }

    // ----- Timer -----

    /** timer.start: cancel the interval the handle names, if any, then schedule a fresh one. */
    method Start()
      requires Valid()
      modifies this`timerHandle, this`activeIntervals
      ensures Valid()
      ensures activeIntervals == {timerHandle} && timerHandle !in old(activeIntervals)
    {
      if timerHandle != 0 {
        activeIntervals := activeIntervals - {timerHandle};
      }
      timerHandle := timerHandle + 1;
      activeIntervals := activeIntervals + {timerHandle};
    }

    /** timer.stop: cancel the interval the handle names; the handle itself is kept. */
    method Stop()
      requires Valid()
      modifies this`activeIntervals
      ensures Valid() && activeIntervals == {}
    {
      activeIntervals := activeIntervals - {timerHandle};
    }

    /** timer.reset: the counter goes back to 0; the interval is left as it is. */
    method Reset()
      requires Valid()
      modifies this`secondsElapsed
      ensures Valid() && secondsElapsed == 0
    {
      secondsElapsed := 0;
    }

    /**
     * One second passes: every scheduled interval runs its callback once, and
     * the callback counts the second only when the game is not paused.
     */
    method Tick()
      requires Valid()
      modifies this`secondsElapsed
      ensures Valid()
      ensures secondsElapsed == old(secondsElapsed) + if activeIntervals != {} && !isPaused then 1 else 0
    {
      if activeIntervals != {} && !isPaused {
        secondsElapsed := secondsElapsed + 1;
      }
    }

    // ----- Pause and selection -----

    method TogglePause()
      requires Valid()
      modifies this`isPaused
      ensures Valid() && isPaused == !old(isPaused)
    {
      isPaused := !isPaused;
    }

    /** handleCellClick, with the cell the click landed in (None for a click between cells). */
    method Select(target: Option<CellIndex>)
      requires Valid()
      modifies this`activeCell
      ensures Valid()
      ensures activeCell == if isPaused || target.None? then old(activeCell) else target
    {
      if isPaused {
        return;
      }
      if target.None? {
        return;
      }
      activeCell := target;
    }

    // ----- Keyboard input -----

    /** A key press changes no cell: paused, nothing selected, or the selected cell is given. */
    predicate KeyIgnored()
      reads this, cells
      requires Valid()
    {
      isPaused || activeCell.None? || cells[activeCell.value].prefilled
    }

    /** handleKeyPress: the gate, then a digit, Backspace/Delete, or nothing. */
    method HandleKeyPress(key: Key)
      requires Valid()
      modifies cells
      ensures Valid()
      ensures old(KeyIgnored()) || key.OtherKey? ==> cells[..] == old(cells[..])
      ensures !old(KeyIgnored()) && key.DigitKey? ==>
        cells[..] == old(cells[..])[activeCell.value := Press(old(cells[activeCell.value]), key.digit)]
      ensures !old(KeyIgnored()) && (key.Backspace? || key.Delete?) ==>
        cells[..] == old(cells[..])[activeCell.value := Erase(old(cells[activeCell.value]))]
      ensures forall k :: 0 <= k < CellCount && old(cells[k]).prefilled ==> cells[k] == old(cells[k])
    {
      if isPaused || activeCell.None? || cells[activeCell.value].prefilled {
        return;
      }
      var i := activeCell.value;
      match key
      case DigitKey(d) => ApplyDigit(i, d);
      case Backspace => ClearCell(i);
      case Delete => ClearCell(i);
      case OtherKey =>
    }

    /** The digit branch: marks first, then the value, then the empty cell. */
    method ApplyDigit(i: CellIndex, d: Digit)
      requires Valid() && !cells[i].prefilled
      modifies cells
      ensures Valid()
      ensures cells[..] == old(cells[..])[i := Press(old(cells[i]), d)]
    {
      var c := cells[i];
      if c.marks != {} {
        if d in c.marks {
          cells[i] := c.(marks := c.marks - {d});
        } else {
          cells[i] := c.(marks := c.marks + {d});
        }
      } else if c.value != 0 {
        if c.value != d {
          cells[i] := cells[i].(value := 0);
          cells[i] := cells[i].(marks := cells[i].marks + {c.value});
          cells[i] := cells[i].(marks := cells[i].marks + {d});
          assert cells[i] == Press(c, d);
        }
      } else {
        cells[i] := c.(value := d);
      }
    }

    /** The Backspace/Delete branch: clear the value, then every pencil mark. */
    method ClearCell(i: CellIndex)
      requires Valid() && !cells[i].prefilled
      modifies cells
      ensures Valid()
      ensures cells[..] == old(cells[..])[i := Erase(old(cells[i]))]
    {
      cells[i] := cells[i].(value := 0);
      ClearPencilMarks(i);
    }

    /** clearPencilMarks: take the visible class off each of the nine marks in turn. */
    method ClearPencilMarks(i: CellIndex)
      requires cells.Length == CellCount && MarksInRange(cells[i].marks)
      modifies cells
      ensures cells[..] == old(cells[..])[i := old(cells[i]).(marks := {})]
    {
      for m := 1 to Side + 1
        invariant forall k :: 0 <= k < CellCount && k != i ==> cells[k] == old(cells[k])
        invariant cells[i] == old(cells[i]).(marks := cells[i].marks)
        invariant forall x :: x in cells[i].marks <==> x in old(cells[i].marks) && m <= x
      {
        cells[i] := cells[i].(marks := cells[i].marks - {m});
      }
      assert forall x :: x !in cells[i].marks;
      assert cells[i].marks == {};
    }

    // ----- Loading and checking -----

    /** populateGrid: every cell takes its puzzle entry, loses its marks, and is given iff the entry is not 0. */
    method PopulateGrid(puzzle: seq<seq<int>>)
      requires Valid() && IsGrid(puzzle)
      modifies cells
      ensures Valid()
      ensures forall r, c :: 0 <= r < Side && 0 <= c < Side ==> CellAt(cells[..], r, c) == Loaded(puzzle[r][c])
    {
      for i := 0 to Side
        invariant Valid()
        invariant forall r, c :: 0 <= r < i && 0 <= c < Side ==> CellAt(cells[..], r, c) == Loaded(puzzle[r][c])
      {
        for j := 0 to Side
          invariant Valid()
          invariant forall r, c :: 0 <= r < i && 0 <= c < Side ==> CellAt(cells[..], r, c) == Loaded(puzzle[r][c])
          invariant forall c :: 0 <= c < j ==> CellAt(cells[..], i, c) == Loaded(puzzle[i][c])
        {
          var index := i * Side + j;
          var value := puzzle[i][j];
          cells[index] := cells[index].(value := value);
          ClearPencilMarks(index);
          cells[index] := cells[index].(prefilled := value != 0);
          assert cells[index] == Loaded(value);
        }
      }
    }

    /** The successful new-game response: store the solution, then load the puzzle. */
    method ReceiveGame(puzzle: seq<seq<int>>, newSolution: seq<seq<int>>)
      requires Valid() && IsGrid(puzzle) && IsGrid(newSolution)
      modifies this`solution, cells
      ensures Valid() && solution == newSolution
      ensures forall r, c :: 0 <= r < Side && 0 <= c < Side ==> CellAt(cells[..], r, c) == Loaded(puzzle[r][c])
    {
      solution := newSolution;
      PopulateGrid(puzzle);
    }

    /** The synchronous start of fetchNewGame: unpause, zero the counter, restart the interval. */
    method NewGame()
      requires Valid()
      modifies this`isPaused, this`secondsElapsed, this`timerHandle, this`activeIntervals
      ensures Valid() && !isPaused && secondsElapsed == 0
      ensures activeIntervals == {timerHandle} && timerHandle !in old(activeIntervals)
    {
      isPaused := true;
      TogglePause();
      Reset();
      Start();
    }

    /** The loop of checkSolution: is every cell filled, and does every constrained cell match? */
    method Scan() returns (isComplete: bool, isCorrect: bool)
      requires Valid() && IsGrid(solution)
      ensures isComplete == Filled(cells[..])
      ensures isCorrect == MatchesSolution(cells[..], solution)
    {
      isComplete, isCorrect := true, true;
      for i := 0 to Side
        invariant isComplete == forall r, c :: 0 <= r < i && 0 <= c < Side ==> CellAt(cells[..], r, c).value != 0
        invariant isCorrect == forall r, c :: 0 <= r < i && 0 <= c < Side && solution[r][c] != 0 ==>
          CellAt(cells[..], r, c).value == solution[r][c]
      {
        for j := 0 to Side
          invariant isComplete == ((forall r, c :: 0 <= r < i && 0 <= c < Side ==> CellAt(cells[..], r, c).value != 0)
            && (forall c :: 0 <= c < j ==> CellAt(cells[..], i, c).value != 0))
          invariant isCorrect == ((forall r, c :: 0 <= r < i && 0 <= c < Side && solution[r][c] != 0 ==>
              CellAt(cells[..], r, c).value == solution[r][c])
            && (forall c :: 0 <= c < j && solution[i][c] != 0 ==> CellAt(cells[..], i, c).value == solution[i][c]))
        {
          assert CellAt(cells[..], i, j) == cells[i * Side + j];
          var userValue := cells[i * Side + j].value;
          if userValue == 0 {
            isComplete := false;
          }
          if userValue != solution[i][j] && solution[i][j] != 0 {
            isCorrect := false;
          }
        }
      }
      FilledByRows(cells[..]);
    }

    /**
     * checkSolution: nothing while paused; a TypeError (Aborted) while no
     * solution has arrived; otherwise the verdict, stopping the interval
     * first when it is Correct so the time shown is final.
     */
    method CheckSolution() returns (result: CheckResult)
      requires Valid()
      modifies this`activeIntervals
      ensures Valid()
      ensures isPaused ==> result == Ignored
      ensures !isPaused && solution == [] ==> result == Aborted
      ensures !isPaused && solution != [] ==> result.Reported? && result.verdict == Evaluate(cells[..], solution)
      ensures result.Reported? ==> result.seconds == if result.verdict == Correct then Some(secondsElapsed) else None
      ensures result.Reported? && result.verdict == Correct ==> activeIntervals == {}
      ensures !(result.Reported? && result.verdict == Correct) ==> activeIntervals == old(activeIntervals)
    {
      if isPaused {
        return Ignored;
      }
      if solution == [] {
        return Aborted;
      }
      var isComplete, isCorrect := Scan();
      if !isComplete {
        result := Reported(Incomplete, None);
      } else if isCorrect {
        Stop();
        result := Reported(Correct, Some(secondsElapsed));
      } else {
        result := Reported(Incorrect, None);
      }
    }
  }

  /**
   * What a press of the check button leads to. A Correct report carries the
   * elapsed seconds, which the congratulation message shows through
   * TimeFormat.FormatTime.
   */
  datatype CheckResult = Ignored | Aborted | Reported(verdict: Verdict, seconds: Option<nat>)
}
