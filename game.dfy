/** The game engine of the browser Sudoku: a `SudokuGame` object owns the
    solved grid, the player's board, the set of fixed (given) cells, the
    mistake counter and the difficulty, and offers the commands the page's
    buttons and keys invoke. Random choices are left to the verifier: every
    property below holds whichever index the random source picks. */
module Sudoku {
  import opened Sequences
  import opened Grid

  datatype Option<T> = None | Some(value: T)

  /** The three answers of the check button: wrong digits are present; the
      board is full and has none (the game is won); or no wrong digit so far. */
  datatype CheckOutcome = ErrorsFound | Won | CorrectSoFar

  /** How many cells a new puzzle hides for a difficulty; an unknown name counts as medium. */
  function CellsToRemove(difficulty: string): (k: nat)
    ensures k == 30 || k == 45 || k == 55
  {
    if difficulty == "easy" then 30
    else if difficulty == "medium" then 45
    else if difficulty == "hard" then 55
    else 45
  }

  /** Every fixed cell shows its solution value. */
  ghost predicate FixedAgree(board: array2<int>, solution: array2<int>, fixed: set<(int, int)>)
    reads board, solution
    requires IsGrid(board) && IsGrid(solution)
  {
    forall p :: p in fixed ==> IsCell(p) && board[p.0, p.1] == solution[p.0, p.1]
  }

  /** The cells a hint may reveal: not fixed and still empty. */
  ghost function HintCells(board: array2<int>, fixed: set<(int, int)>): set<(int, int)>
    reads board
    requires IsGrid(board)
  {
    set r, c | 0 <= r < 9 && 0 <= c < 9 && (r, c) !in fixed && board[r, c] == 0 :: (r, c)
  }

  /** Cell (r, c) is a player's entry that differs from the solution. */
  ghost predicate Wrong(board: array2<int>, solution: array2<int>, fixed: set<(int, int)>, r: int, c: int)
    reads board, solution
    requires IsGrid(board) && IsGrid(solution) && InRange(r) && InRange(c)
  {
    (r, c) !in fixed && board[r, c] != 0 && board[r, c] != solution[r, c]
  }

  ghost predicate HasErrors(board: array2<int>, solution: array2<int>, fixed: set<(int, int)>)
    reads board, solution
    requires IsGrid(board) && IsGrid(solution)
  {
    exists r, c :: InRange(r) && InRange(c) && Wrong(board, solution, fixed, r, c)
  }

  /** The board equals the solution cell for cell. */
  ghost predicate Correct(board: array2<int>, solution: array2<int>)
    reads board, solution
    requires IsGrid(board) && IsGrid(solution)
  {
    forall r, c :: InRange(r) && InRange(c) ==> board[r, c] == solution[r, c]
  }

  /** With every fixed cell agreeing with the solution, a full board without wrong
      entries is the solution: the check button's win implies the full correctness check. */
  lemma WonIsCorrect(board: array2<int>, solution: array2<int>, fixed: set<(int, int)>)
    requires IsGrid(board) && IsGrid(solution)
    requires FixedAgree(board, solution, fixed)
    requires !HasErrors(board, solution, fixed) && Full(board)
    ensures Correct(board, solution)
  {
    forall r, c | InRange(r) && InRange(c)
      ensures board[r, c] == solution[r, c]
    {
      if (r, c) !in fixed {
        assert !Wrong(board, solution, fixed, r, c);
      }
    }
  }

  /** Conversely, a board equal to a full solution has no wrong entry and is full. */
  lemma CorrectIsWon(board: array2<int>, solution: array2<int>, fixed: set<(int, int)>)
    requires IsGrid(board) && IsGrid(solution)
    requires Full(solution) && Correct(board, solution)
    ensures !HasErrors(board, solution, fixed) && Full(board)
  {
  }

  /** Easy, medium and hard puzzles keep 51, 36 and 26 given cells; any other
      difficulty name is treated as medium. */
  lemma GivenCellsByDifficulty()
    ensures 81 - CellsToRemove("easy") == 51
    ensures 81 - CellsToRemove("medium") == 36
    ensures 81 - CellsToRemove("hard") == 26
    ensures forall d :: d != "easy" && d != "hard" ==> CellsToRemove(d) == CellsToRemove("medium")
  {
  }

  class SudokuGame {
    /** The player's working grid (0 = empty). */
    var board: array2<int>
    /** The grid the puzzle was carved from. */
    var solution: array2<int>
    /** Cells the player may not edit. */
    var fixedCells: set<(int, int)>
    var mistakes: nat
    var difficulty: string

    /** Both grids are 9x9 and distinct arrays. */
    ghost predicate Shape()
      reads this
    {
      IsGrid(board) && IsGrid(solution) && board != solution
    }

    /** The game invariant: every fixed cell shows its solution value. */
    ghost predicate Valid()
      reads this, board, solution
    {
      Shape() && FixedAgree(board, solution, fixedCells)
    }

    /** A new game object starts at medium difficulty and generates its first game. */
    constructor ()
      ensures Valid() && fresh(board) && fresh(solution)
      ensures difficulty == "medium" && mistakes == 0
      ensures fixedCells == NonZeroCells(board)
      ensures forall r, c :: InRange(r) && InRange(c) ==> board[r, c] == 0 || board[r, c] == solution[r, c]
      ensures Full(solution) ==> IsSudokuSolution(solution)
      ensures Full(solution) ==> |Zeros(board)| == 45 && |fixedCells| == 36
    {
      board := new int[9, 9]((r, c) => 0);
      solution := new int[9, 9]((r, c) => 0);
      fixedCells := {};
      mistakes := 0;
      difficulty := "medium";
      new;
      var solved := GenerateNewGame();
    }

    /** Starts over: two fresh empty grids, no fixed cells, no mistakes. */
    method ResetGame()
      modifies this
      ensures Valid() && fresh(board) && fresh(solution)
      ensures AllZero(board) && AllZero(solution)
      ensures fixedCells == {} && mistakes == 0 && difficulty == old(difficulty)
    {
      board := new int[9, 9]((r, c) => 0);
      solution := new int[9, 9]((r, c) => 0);
      fixedCells := {};
      mistakes := 0;
    }

    /** A new game: reset, generate a solution, carve the puzzle. The solver's
        success flag, which the game itself ignores, is returned to state what
        follows from it. */
    method GenerateNewGame() returns (solved: bool)
      modifies this
      ensures Valid() && fresh(board) && fresh(solution)
      ensures mistakes == 0 && difficulty == old(difficulty)
      ensures fixedCells == NonZeroCells(board)
      ensures forall r, c :: InRange(r) && InRange(c) ==> board[r, c] == 0 || board[r, c] == solution[r, c]
      ensures solved <==> Full(solution)
      ensures Full(solution) ==> IsSudokuSolution(solution)
      ensures Full(solution) ==> |Zeros(board)| == CellsToRemove(difficulty) && |fixedCells| == 81 - CellsToRemove(difficulty)
    {
      ResetGame();
      solved := GenerateSolution();
      ghost var cleared := CreatePuzzle();
    }

    /** Choosing a difficulty starts a new game at that difficulty. */
    method ChangeDifficulty(newDifficulty: string) returns (solved: bool)
      modifies this
      ensures Valid() && fresh(board) && fresh(solution)
      ensures difficulty == newDifficulty && mistakes == 0
      ensures fixedCells == NonZeroCells(board)
      ensures forall r, c :: InRange(r) && InRange(c) ==> board[r, c] == 0 || board[r, c] == solution[r, c]
      ensures solved <==> Full(solution)
      ensures Full(solution) ==> IsSudokuSolution(solution)
      ensures Full(solution) ==> |Zeros(board)| == CellsToRemove(newDifficulty) && |fixedCells| == 81 - CellsToRemove(newDifficulty)
    {
      difficulty := newDifficulty;
      solved := GenerateNewGame();
    }

    /** Seeds the diagonal boxes and completes the grid with the solver. */
    method GenerateSolution() returns (solved: bool)
      requires Shape()
      modifies solution
      ensures solved ==> Full(solution)
      ensures solved && old(AllZero(solution)) ==> IsSudokuSolution(solution)
      ensures old(AllZero(solution)) ==> (solved <==> Full(solution))
    {
      ghost var wasEmpty := AllZero(solution);
      FillDiagonalBoxes();
      if wasEmpty {
        DiagonalSeedConsistent(solution);
      }
      solved := SolveSudoku(solution);
      if solved && wasEmpty {
        ConsistentFullIsSolution(solution);
      }
      if !solved && wasEmpty {
        assert solution[0, 3] == 0;
      }
    }

    /** Writes a shuffled 1..9 into the boxes at (0,0), (3,3) and (6,6). */
    method FillDiagonalBoxes()
      requires Shape()
      modifies solution
      ensures DiagonalSeeded(solution)
      ensures forall r, c :: InRange(r) && InRange(c) && r / 3 != c / 3 ==> solution[r, c] == old(solution[r, c])
    {
      var box := 0;
      ghost var s0, s3, s6: seq<int> := [], [], [];
      while box < 9
        invariant box == 0 || box == 3 || box == 6 || box == 9
        invariant box > 0 ==> IsDigitPermutation(s0) && BoxValues(solution, 0, 0) == s0
        invariant box > 3 ==> IsDigitPermutation(s3) && BoxValues(solution, 3, 3) == s3
        invariant box > 6 ==> IsDigitPermutation(s6) && BoxValues(solution, 6, 6) == s6
        invariant forall r, c :: InRange(r) && InRange(c) && (r / 3 != c / 3 || r >= box) ==> solution[r, c] == old(solution[r, c])
      {
        label BeforeBox:
        FillBox(box, box);
        forall r, c | InRange(r) && InRange(c) && r < box
          ensures solution[r, c] == old@BeforeBox(solution[r, c])
        {
          assert !InBlock(r, c, box, box);
        }
        forall r, c | InRange(r) && InRange(c) && (r / 3 != c / 3 || r >= box + 3)
          ensures solution[r, c] == old(solution[r, c])
        {
          OffDiagonalBlock(r, c, box);
        }
        ghost var filled := BoxValues(solution, box, box);
        if box > 0 {
          forall k | 0 <= k < 9
            ensures BoxValues(solution, 0, 0)[k] == s0[k]
          {
            assert k / 3 < box;
          }
        }
        if box > 3 {
          forall k | 0 <= k < 9
            ensures BoxValues(solution, 3, 3)[k] == s3[k]
          {
            assert 3 + k / 3 < box;
          }
        }
        if box == 0 {
          s0 := filled;
        } else if box == 3 {
          s3 := filled;
        } else {
          s6 := filled;
        }
        box := box + 3;
      }
    }

    /** Writes a shuffled 1..9, row-major, into the box whose top-left cell is (row, col). */
    method FillBox(row: int, col: int)
      requires Shape() && 0 <= row <= 6 && 0 <= col <= 6
      modifies solution
      ensures IsDigitPermutation(BoxValues(solution, row, col))
      ensures forall r, c :: InRange(r) && InRange(c) && !InBlock(r, c, row, col) ==> solution[r, c] == old(solution[r, c])
    {
      var numbers := ShuffledDigits();
      ghost var shuffled := numbers[..];
      var index := 0;
      for i := 0 to 3
        invariant index == 3 * i && numbers[..] == shuffled
        invariant forall r, c :: InBlock(r, c, row, col) && r < row + i ==>
                    solution[r, c] == shuffled[3 * (r - row) + (c - col)]
        invariant forall r, c :: InRange(r) && InRange(c) && !InBlock(r, c, row, col) ==> solution[r, c] == old(solution[r, c])
      {
        for j := 0 to 3
          invariant index == 3 * i + j && numbers[..] == shuffled
          invariant forall r, c :: InBlock(r, c, row, col) && (r < row + i || (r == row + i && c < col + j)) ==>
                      solution[r, c] == shuffled[3 * (r - row) + (c - col)]
          invariant forall r, c :: InRange(r) && InRange(c) && !InBlock(r, c, row, col) ==> solution[r, c] == old(solution[r, c])
        {
          solution[row + i, col + j] := numbers[index];
          index := index + 1;
        }
      }
      BoxValuesIffCells(solution, row, col, shuffled);
    }

    /** The digits 1 to 9 in a random order, in a new array. */
    static method ShuffledDigits() returns (numbers: array<int>)
      ensures fresh(numbers) && IsDigitPermutation(numbers[..])
    {
      numbers := new int[9](i => i + 1);
      assert numbers[..] == Digits();
      ShuffleArray(numbers);
      ReorderedDigits(numbers[..]);
    }

    /** Fisher-Yates: for i from the last index down to 1, swap element i with an
        element j chosen in [0, i]. Whatever the choices, the result is a
        permutation of the input, and arrays of length 0 or 1 are untouched. */
    static method ShuffleArray<T>(arr: array<T>)
      modifies arr
      ensures multiset(arr[..]) == old(multiset(arr[..]))
      ensures arr.Length <= 1 ==> arr[..] == old(arr[..])
    {
      var i := arr.Length - 1;
      while i > 0
        invariant i < arr.Length
        invariant multiset(arr[..]) == old(multiset(arr[..]))
        invariant arr.Length <= 1 ==> arr[..] == old(arr[..])
      {
        var j :| 0 <= j <= i;
        arr[i], arr[j] := arr[j], arr[i];
        i := i - 1;
      }
    }

    /** Backtracking: fill the first empty cell with each candidate that passes the
        constraint check, in shuffled order, recurse, and clear the cell again when
        the recursion fails. */
    static method SolveSudoku(board: array2<int>) returns (solved: bool)
      requires IsGrid(board)
      modifies board
      ensures solved ==> Full(board)
      ensures solved ==> forall r, c :: InRange(r) && InRange(c) && old(board[r, c]) != 0 ==> board[r, c] == old(board[r, c])
      ensures solved && old(Consistent(board)) ==> Consistent(board)
      ensures !solved ==> forall r, c :: InRange(r) && InRange(c) ==> board[r, c] == old(board[r, c])
      decreases |Zeros(board)|
    {
      var emptyCell := FindEmptyCell(board);
      if emptyCell.None? {
        return true;
      }
      var row, col := emptyCell.value.0, emptyCell.value.1;
      assert board[row, col] == 0;
      var numbers := ShuffledDigits();
      var candidates := numbers[..];
      for k := 0 to 9
        invariant forall r, c :: InRange(r) && InRange(c) ==> board[r, c] == old(board[r, c])
      {
        var num := candidates[k];
        var valid := IsValidMove(board, row, col, num);
        if valid {
          SameCells(board);
          PlaceDigit(board, row, col, num);
          solved := SolveSudoku(board);
          if solved {
            return;
          }
          board[row, col] := 0;
        }
      }
      return false;
    }

    /** The write `board[row][col] = num` of the solver: filling an empty cell with a digit
        that passes the row, column and box check leaves one empty cell fewer and keeps a
        consistent grid consistent. */
    static method PlaceDigit(board: array2<int>, row: int, col: int, num: int)
      requires IsGrid(board) && InRange(row) && InRange(col) && 1 <= num <= 9
      requires board[row, col] == 0 && ValidMove(board, row, col, num)
      modifies board
      ensures board[row, col] == num
      ensures forall r, c :: InRange(r) && InRange(c) && (r != row || c != col) ==> board[r, c] == old(board[r, c])
      ensures |Zeros(board)| < old(|Zeros(board)|)
      ensures old(Consistent(board)) ==> Consistent(board)
    {
      ValidMoveAvoidsPeers(board, row, col, num);
      board[row, col] := num;
      assert old(Zeros(board)) == Zeros(board) + {(row, col)};
    }

    /** The first empty cell in row-major order, or None when there is none. */
    static method FindEmptyCell(board: array2<int>) returns (cell: Option<(int, int)>)
      requires IsGrid(board)
      ensures cell.None? <==> Full(board)
      ensures cell.Some? ==> IsCell(cell.value) && board[cell.value.0, cell.value.1] == 0
      ensures cell.Some? ==> forall r, c ::
                InRange(r) && InRange(c) && (r < cell.value.0 || (r == cell.value.0 && c < cell.value.1)) ==>
                board[r, c] != 0
    {
      for row := 0 to 9
        invariant forall r, c :: 0 <= r < row && InRange(c) ==> board[r, c] != 0
      {
        for col := 0 to 9
          invariant forall r, c :: 0 <= r < row && InRange(c) ==> board[r, c] != 0
          invariant forall c :: 0 <= c < col ==> board[row, c] != 0
        {
          if board[row, col] == 0 {
            return Some((row, col));
          }
        }
      }
      return None;
    }

    /** Whether `num` may go at (row, col): it occurs neither in the row, nor in the
        column, nor in the 3x3 box containing the cell. */
    static method IsValidMove(board: array2<int>, row: int, col: int, num: int) returns (valid: bool)
      requires IsGrid(board) && InRange(row) && InRange(col)
      ensures valid <==> ValidMove(board, row, col, num)
    {
      for i := 0 to 9
        invariant forall k :: 0 <= k < i ==> board[row, k] != num && board[k, col] != num
      {
        if board[row, i] == num || board[i, col] == num {
          return false;
        }
      }
      var boxRow, boxCol := (row / 3) * 3, (col / 3) * 3;
      for i := 0 to 3
        invariant forall r, c :: boxRow <= r < boxRow + i && boxCol <= c < boxCol + 3 ==> board[r, c] != num
      {
        for j := 0 to 3
          invariant forall r, c ::
                      (boxRow <= r < boxRow + i && boxCol <= c < boxCol + 3) ||
                      (r == boxRow + i && boxCol <= c < boxCol + j) ==>
                      board[r, c] != num
        {
          if board[boxRow + i, boxCol + j] == num {
            return false;
          }
        }
      }
      return true;
    }

    /** Carves the puzzle: copy the solution, clear the first K cells of a shuffled
        list of all 81 coordinates, and fix every cell still filled. `cleared` names
        the cells that were cleared. */
    method CreatePuzzle() returns (ghost cleared: set<(int, int)>)
      requires Shape() && fixedCells == {}
      modifies board, this`fixedCells
      ensures Valid()
      ensures |cleared| == CellsToRemove(difficulty) && forall p :: p in cleared ==> IsCell(p)
      ensures forall r, c :: InRange(r) && InRange(c) ==> board[r, c] == if (r, c) in cleared then 0 else solution[r, c]
      ensures fixedCells == NonZeroCells(board)
      ensures Full(solution) ==> Zeros(board) == cleared && |fixedCells| == 81 - CellsToRemove(difficulty)
    {
      CopySolution();
      var cellsToRemove := CellsToRemove(difficulty);
      var cells := AllCells();
      ShuffleArray(cells);
      ghost var order := cells[..];
      ReorderedCells(order);
      for i := 0 to cellsToRemove
        modifies board
        invariant forall r, c :: InRange(r) && InRange(c) ==>
                    board[r, c] == if (r, c) in ValuesBetween(order, 0, i) then 0 else solution[r, c]
      {
        var (row, col) := cells[i];
        board[row, col] := 0;
        ValuesBetweenExtend(order, 0, i);
      }
      cleared := ValuesBetween(order, 0, cellsToRemove);

      FixFilledCells();
      CarvedGrid(board, solution, order, cellsToRemove);
    }

    /** The first step of carving: the board becomes a copy of the solution. */
    method CopySolution()
      requires Shape()
      modifies board
      ensures forall r, c :: InRange(r) && InRange(c) ==> board[r, c] == solution[r, c]
    {
      for row := 0 to 9
        invariant forall r, c :: 0 <= r < row && InRange(c) ==> board[r, c] == solution[r, c]
      {
        for col := 0 to 9
          invariant forall r, c :: 0 <= r < row && InRange(c) ==> board[r, c] == solution[r, c]
          invariant forall c :: 0 <= c < col ==> board[row, c] == solution[row, c]
        {
          board[row, col] := solution[row, col];
        }
      }
    }

    /** The list of all 81 coordinates that carving shuffles, built row by row. */
    static method AllCells() returns (cells: array<(int, int)>)
      ensures fresh(cells) && cells[..] == CellsInOrder()
    {
      cells := new (int, int)[81];
      for row := 0 to 9
        invariant forall k :: 0 <= k < 9 * row ==> cells[k] == (k / 9, k % 9)
      {
        for col := 0 to 9
          invariant forall k :: 0 <= k < 9 * row + col ==> cells[k] == (k / 9, k % 9)
        {
          DivMod9(row, col);
          cells[9 * row + col] := (row, col);
        }
      }
      assert forall k :: 0 <= k < 81 ==> cells[k] == CellsInOrder()[k];
    }

    /** The last step of carving: every cell that still holds a digit becomes fixed. */
    method FixFilledCells()
      requires Shape()
      modifies this`fixedCells
      ensures fixedCells == old(fixedCells) + NonZeroCells(board)
    {
      for row := 0 to 9
        invariant forall p :: p in fixedCells <==> p in old(fixedCells) || (IsCell(p) && p.0 < row && board[p.0, p.1] != 0)
      {
        for col := 0 to 9
          invariant forall p :: p in fixedCells <==>
                      p in old(fixedCells) || (IsCell(p) && (p.0 < row || (p.0 == row && p.1 < col)) && board[p.0, p.1] != 0)
        {
          if board[row, col] != 0 {
            fixedCells := fixedCells + {(row, col)};
          }
        }
      }
    }

    /** Reveals one non-fixed empty cell, chosen at random among all of them, with
        its solution value and fixes it; when there is no such cell nothing changes. */
    method GiveHint() returns (hint: Option<(int, int)>)
      requires Valid()
      modifies board, this`fixedCells
      ensures Valid()
      ensures hint.None? <==> old(HintCells(board, fixedCells)) == {}
      ensures hint.None? ==> fixedCells == old(fixedCells) && unchanged(board)
      ensures hint.Some? ==>
                hint.value in old(HintCells(board, fixedCells)) &&
                board[hint.value.0, hint.value.1] == solution[hint.value.0, hint.value.1] &&
                (forall r, c :: InRange(r) && InRange(c) && (r, c) != hint.value ==> board[r, c] == old(board[r, c])) &&
                fixedCells == old(fixedCells) + {hint.value}
    {
      var emptyCells: seq<(int, int)> := [];
      for row := 0 to 9
        invariant forall p :: p in emptyCells <==> p in HintCells(board, fixedCells) && p.0 < row
      {
        for col := 0 to 9
          invariant forall p :: p in emptyCells <==>
                      p in HintCells(board, fixedCells) && (p.0 < row || (p.0 == row && p.1 < col))
        {
          if (row, col) !in fixedCells && board[row, col] == 0 {
            emptyCells := emptyCells + [(row, col)];
          }
        }
      }

      if |emptyCells| == 0 {
        return None;
      }

      var k :| 0 <= k < |emptyCells|;
      var (row, col) := emptyCells[k];
      board[row, col] := solution[row, col];
      fixedCells := fixedCells + {(row, col)};
      return Some((row, col));
    }

    /** Puts `number` into the selected cell unless nothing is selected or the cell
        is fixed; a number other than the solution's counts as a mistake. Returns
        whether the board is now complete and correct. */
    method PlaceNumber(selected: Option<(int, int)>, number: int) returns (won: bool)
      requires Valid()
      requires selected.Some? ==> IsCell(selected.value)
      modifies board, this`mistakes
      ensures Valid()
      ensures selected.None? || selected.value in fixedCells ==>
                !won && mistakes == old(mistakes) && unchanged(board)
      ensures selected.Some? && selected.value !in fixedCells ==>
                board[selected.value.0, selected.value.1] == number &&
                (forall r, c :: InRange(r) && InRange(c) && (r, c) != selected.value ==> board[r, c] == old(board[r, c])) &&
                mistakes == old(mistakes) + (if number != solution[selected.value.0, selected.value.1] then 1 else 0) &&
                (won <==> Full(board) && Correct(board, solution))
    {
      if selected.None? {
        return false;
      }
      var (row, col) := selected.value;
      if (row, col) in fixedCells {
        return false;
      }
      board[row, col] := number;
      if number != solution[row, col] {
        mistakes := mistakes + 1;
      }
      var complete := IsBoardComplete();
      var correct := IsBoardCorrect();
      won := complete && correct;
    }

    /** Empties the selected cell unless nothing is selected or the cell is fixed. */
    method ClearCell(selected: Option<(int, int)>)
      requires Valid()
      requires selected.Some? ==> IsCell(selected.value)
      modifies board
      ensures Valid()
      ensures selected.None? || selected.value in fixedCells ==> unchanged(board)
      ensures selected.Some? && selected.value !in fixedCells ==>
                board[selected.value.0, selected.value.1] == 0 &&
                (forall r, c :: InRange(r) && InRange(c) && (r, c) != selected.value ==> board[r, c] == old(board[r, c]))
    {
      if selected.None? {
        return;
      }
      var (row, col) := selected.value;
      if (row, col) in fixedCells {
        return;
      }
      board[row, col] := 0;
    }

    /** The check button: flags every non-fixed filled cell that differs from the
        solution; with none flagged, the game is won when the board is full. */
    method CheckSolution() returns (outcome: CheckOutcome)
      requires Valid()
      ensures outcome == ErrorsFound <==> HasErrors(board, solution, fixedCells)
      ensures outcome == Won <==> !HasErrors(board, solution, fixedCells) && Full(board)
      ensures outcome == Won ==> Correct(board, solution)
    {
      var hasErrors := false;
      for row := 0 to 9
        invariant hasErrors <==> exists r, c :: 0 <= r < row && InRange(c) && Wrong(board, solution, fixedCells, r, c)
      {
        for col := 0 to 9
          invariant hasErrors <==>
                      (exists r, c :: 0 <= r < row && InRange(c) && Wrong(board, solution, fixedCells, r, c)) ||
                      (exists c :: 0 <= c < col && Wrong(board, solution, fixedCells, row, c))
        {
          if (row, col) !in fixedCells && board[row, col] != 0 {
            if board[row, col] != solution[row, col] {
              hasErrors := true;
            }
          }
          assert Wrong(board, solution, fixedCells, row, col) ==> hasErrors;
        }
      }

      if hasErrors {
        outcome := ErrorsFound;
      } else {
        var complete := IsBoardComplete();
        if complete {
          WonIsCorrect(board, solution, fixedCells);
          outcome := Won;
        } else {
          outcome := CorrectSoFar;
        }
      }
    }

    /** Whether no cell of the board is empty. */
    method IsBoardComplete() returns (complete: bool)
      requires Shape()
      ensures complete <==> Full(board)
    {
      for row := 0 to 9
        invariant forall r, c :: 0 <= r < row && InRange(c) ==> board[r, c] != 0
      {
        for col := 0 to 9
          invariant forall c :: 0 <= c < col ==> board[row, c] != 0
        {
          if board[row, col] == 0 {
            return false;
          }
        }
      }
      return true;
    }

    /** Whether the board equals the solution in every cell. */
    method IsBoardCorrect() returns (correct: bool)
      requires Shape()
      ensures correct <==> Correct(board, solution)
    {
      for row := 0 to 9
        invariant forall r, c :: 0 <= r < row && InRange(c) ==> board[r, c] == solution[r, c]
      {
        for col := 0 to 9
          invariant forall c :: 0 <= c < col ==> board[row, c] == solution[row, c]
        {
          if board[row, col] != solution[row, col] {
            return false;
          }
        }
      }
      return true;
    }
  }
}
