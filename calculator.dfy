/** calculator.php: the SudokuCalculator, which validates a gameset and
    solves it by backtracking. Gamesets are strings of digit characters, one
    per cell in block-major order, modelled as sequences of symbols with 0 for
    the character '0' (an empty cell). */
module Calculator {
  import opened Wrappers
  import Arith
  import opened SudokuGame
  import opened BoardLayout
  import opened Rules
  import opened Search

  /** Validator::notEmptyString (validator.php:21): PHP's `empty` is true of
      the empty string and of the string "0". */
  function NotEmptyString(s: seq<int>): (r: bool)
    ensures r <==> |s| >= 1 && s != [0]
  {
    !(s == [] || s == [0])
  }

  /** checkRows as the judge that prunes the search. */
  function CheckRowsJudge(g: Geometry): Judge
    requires g.Valid()
  {
    s => Verdict(g, s)
  }

  /** checkRows has the two properties the search theorems assume of their
      judge: it throws only for gamesets longer than the board, and blanking
      cells never turns acceptance into refusal. */
  lemma CheckRowsJudgeFits(g: Geometry)
    requires g.Valid()
    ensures FailsOnlyWhenLong(CheckRowsJudge(g), g.n * g.n) && KeepsOnBlanking(CheckRowsJudge(g))
  {
    forall a, b | Blanks(a, b) && Verdict(g, b) == Ok(true) ensures Verdict(g, a) == Ok(true) {
      BlankingKeepsVerdict(g, a, b);
    }
  }

  /** The search backtrackSolution runs on a board of geometry g. */
  function Solve(g: Geometry, s: seq<int>): Result<Option<seq<int>>>
    requires g.Valid()
  {
    Backtrack(g.n, CheckRowsJudge(g), s)
  }

  /** The string the search appends completes the input without leaving a
      '0'; when it filled something in, the padded result obeys the rules of
      Sudoku. An input without '0' comes back as it is, unchecked. */
  lemma SolveSound(g: Geometry, s: seq<int>, sol: seq<int>)
    requires g.Valid() && Solve(g, s) == Ok(Some(sol))
    ensures IsFilling(g.n, s, sol) && 0 !in sol
    ensures 0 in s ==> |sol| <= g.n * g.n && Consistent(g, Pad(g, sol))
    ensures 0 !in s ==> sol == s
  {
    BacktrackSound(g.n, CheckRowsJudge(g), s, sol);
    if 0 in s {
      assert Verdict(g, sol) == Ok(true);
      VerdictIffConsistent(g, sol);
    }
  }

  /** The search comes back empty exactly when the input has a '0', fits the
      board, and no completion of it obeys the rules. */
  lemma SolveNone(g: Geometry, s: seq<int>)
    requires g.Valid()
    ensures Solve(g, s) == Ok(None) <==>
      0 in s && |s| <= g.n * g.n && forall c :: IsFilling(g.n, s, c) ==> !Consistent(g, Pad(g, c))
  {
    CheckRowsJudgeFits(g);
    BacktrackNone(g.n, CheckRowsJudge(g), g.n * g.n, s);
    if |s| <= g.n * g.n {
      forall c | IsFilling(g.n, s, c) ensures Verdict(g, c) == Ok(true) <==> Consistent(g, Pad(g, c)) {
        VerdictIffConsistent(g, c);
      }
    }
  }

  /** When a completion obeying the rules exists, the search finds one, and
      the one it finds is the least such completion in dictionary order. */
  lemma SolveLeast(g: Geometry, s: seq<int>, c: seq<int>)
    requires g.Valid() && 0 in s && IsFilling(g.n, s, c) && |c| <= g.n * g.n && Consistent(g, Pad(g, c))
    ensures Solve(g, s).Ok? && Solve(g, s).value.Some?
    ensures Solve(g, s).value.value == c || LexBelow(Solve(g, s).value.value, c)
  {
    CheckRowsJudgeFits(g);
    VerdictIffConsistent(g, c);
    assert Solves(g.n, CheckRowsJudge(g), s, c);
    BacktrackComplete(g.n, CheckRowsJudge(g), g.n * g.n, s, c);
    BacktrackLeast(g.n, CheckRowsJudge(g), g.n * g.n, s, c);
  }

  /** What backtrackSolution returns: true when it found a completion, false
      when it did not, or the exception checkRows threw. */
  function Outcome(search: Result<Option<seq<int>>>): Result<bool> {
    match search
    case Err(e) => Err(e)
    case Ok(found) => Ok(found.Some?)
  }

  /** What backtrackSolution appends to finalSolutions. */
  function Emitted(search: Result<Option<seq<int>>>): seq<seq<int>> {
    if search.Ok? && search.value.Some? then [search.value.value] else []
  }

  class SudokuCalculator {
    /** The dimensions the constructor caches (calculator.php:88-95). */
    const availableNumbers: seq<int>
    const countAvailableNumbers: nat
    const squaresOnBoard: int
    const blockLength: nat
    const squaresInBlock: nat
    const boardLength: nat
    const blocksPerSide: nat
    const squaresInBlockRow: int

    /** Every completed gameset found so far, oldest first. */
    var finalSolutions: seq<seq<int>>

    /** The relations between the cached dimensions that sudoku.php
        guarantees, for a game of at most 9 symbols. */
    predicate Valid() {
      1 <= countAvailableNumbers <= 9 &&
      |availableNumbers| == countAvailableNumbers &&
      (forall i :: 0 <= i < countAvailableNumbers ==> availableNumbers[i] == i + 1) &&
      blockLength >= 1 && countAvailableNumbers == blockLength * blockLength &&
      squaresOnBoard == countAvailableNumbers * countAvailableNumbers &&
      squaresInBlock == countAvailableNumbers && boardLength == countAvailableNumbers &&
      blocksPerSide == blockLength &&
      squaresInBlockRow == squaresInBlock * blocksPerSide
    }

    /** The board geometry the cached dimensions describe. */
    function Geom(): (g: Geometry)
      requires Valid()
      ensures g.Valid() && g.n == countAvailableNumbers && g.s == blockLength
    {
      Geometry(countAvailableNumbers, blockLength)
    }

    /** The constructor for a game whose block side exists; `Create` is the
        constructor as the source has it, exception included. */
    constructor (sudoku: Sudoku)
      requires 1 <= sudoku.rangeMax <= 9 && sudoku.BlockBorderLength().Ok?
      ensures Valid() && finalSolutions == []
      ensures availableNumbers == sudoku.AvailableNumbers()
      ensures countAvailableNumbers == sudoku.rangeMax
      ensures blockLength == sudoku.BlockBorderLength().value
    {
      availableNumbers := sudoku.AvailableNumbers();
      countAvailableNumbers := |sudoku.AvailableNumbers()|;
      squaresOnBoard := sudoku.NumberOfSquaresOnBoard();
      blockLength := sudoku.BlockBorderLength().value;
      squaresInBlock := sudoku.NumberOfSquaresInBlock();
      boardLength := sudoku.BoardBorderLength();
      blocksPerSide := sudoku.NumberBlockPerSide().value;
      squaresInBlockRow := sudoku.NumberOfSquaresInBlock() * sudoku.NumberBlockPerSide().value;
      finalSolutions := [];
    }

    /** __construct (calculator.php:75-96): reading the block side of a game
        whose symbol count is no square throws. */
    static method Create(sudoku: Sudoku) returns (r: Result<SudokuCalculator>)
      requires 1 <= sudoku.rangeMax <= 9
      ensures r.Err? <==> !(exists m: nat :: Square(m) == sudoku.rangeMax)
      ensures r.Err? ==> r.error == InvalidBorderLength
      ensures r.Ok? ==> fresh(r.value) && r.value.Valid() && r.value.finalSolutions == []
      ensures r.Ok? ==> r.value.countAvailableNumbers == sudoku.rangeMax
    {
      var length := sudoku.BlockBorderLength();
      if length.Err? {
        return Err(length.error);
      }
      SquareIsProduct(length.value);
      assert Square(length.value) == sudoku.rangeMax;
      var calculator := new SudokuCalculator(sudoku);
      return Ok(calculator);
    }

    /** checkBlocks (calculator.php:324-336): every chunk of n characters
        passes checkRow. */
    method CheckBlocks(numberstring: seq<int>) returns (ok: bool)
      requires Valid() && |numberstring| == squaresOnBoard
      ensures ok <==> forall b :: 0 <= b < countAvailableNumbers ==> CheckRow(GridBlock(Geom(), numberstring, b))
    {
      var blocks := StrSplit(numberstring, countAvailableNumbers);
      StrSplitChunks(numberstring, countAvailableNumbers, countAvailableNumbers);
      var i := 0;
      while i < |blocks|
        invariant 0 <= i <= |blocks|
        invariant forall b :: 0 <= b < i ==> CheckRow(GridBlock(Geom(), numberstring, b))
      {
        assert blocks[i] == GridBlock(Geom(), numberstring, i);
        if !CheckRow(blocks[i]) {
          return false;
        }
        i := i + 1;
      }
      return true;
    }

    /** checkHorizontalRows (calculator.php:255-277): for every row it
        gathers s pieces of s characters with its own stride arithmetic and
        hands them to checkRow. */
    method CheckHorizontalRows(numberstring: seq<int>) returns (ok: bool)
      requires Valid() && |numberstring| == squaresOnBoard
      ensures ok <==> forall r :: 0 <= r < countAvailableNumbers ==> CheckRow(GridRow(Geom(), numberstring, r))
    {
      ghost var g := Geom();
      var i := 0;
      while i < boardLength
        invariant 0 <= i <= boardLength
        invariant forall r :: 0 <= r < i ==> CheckRow(GridRow(g, numberstring, r))
      {
        var additionalIncrement := (i / blockLength) * (squaresInBlockRow - squaresInBlock);
        var start := i * blockLength + additionalIncrement;
        var row := [];
        var b := 0;
        while b < blocksPerSide
          invariant 0 <= b <= blocksPerSide
          invariant blockLength * b <= g.n
          invariant row == GridRow(g, numberstring, i)[..blockLength * b]
        {
          var blockStart := start + squaresInBlock * b;
          assert blockStart == RowWalk(g, i, b, 0);
          RowWalkPiece(g, numberstring, i, b, blockStart);
          ghost var whole := GridRow(g, numberstring, i);
          assert whole[..blockLength * b] + whole[blockLength * b .. blockLength * b + blockLength] == whole[..blockLength * (b + 1)];
          row := row + numberstring[blockStart .. blockStart + blockLength];
          b := b + 1;
        }
        assert row == GridRow(g, numberstring, i);
        if !CheckRow(row) {
          return false;
        }
        i := i + 1;
      }
      return true;
    }

    /** checkVerticalRows (calculator.php:288-313): for every column it takes
        one character per row with its own stride arithmetic and hands the
        column to checkRow. */
    method CheckVerticalRows(numberstring: seq<int>) returns (ok: bool)
      requires Valid() && |numberstring| == squaresOnBoard
      ensures ok <==> forall c :: 0 <= c < countAvailableNumbers ==> CheckRow(GridColumn(Geom(), numberstring, c))
    {
      ghost var g := Geom();
      var i := 0;
      while i < boardLength
        invariant 0 <= i <= boardLength
        invariant forall c :: 0 <= c < i ==> CheckRow(GridColumn(g, numberstring, c))
      {
        var additionalIncrement := (i / blockLength) * (squaresInBlock - blockLength);
        var start := i + additionalIncrement;
        var row := [];
        var b := 0;
        while b < boardLength
          invariant 0 <= b <= boardLength
          invariant |row| == b
          invariant forall j :: 0 <= j < b ==> row[j] == Cell(g, numberstring, j, i)
        {
          var additionalRowIncrement := (b / blockLength) * (squaresInBlockRow - squaresInBlock);
          var rowStart := start + (b * blockLength) + additionalRowIncrement;
          ColumnPiece(g, numberstring, i, b, rowStart);
          row := row + numberstring[rowStart .. rowStart + 1];
          b := b + 1;
        }
        assert row == GridColumn(g, numberstring, i);
        if !CheckRow(row) {
          return false;
        }
        i := i + 1;
      }
      return true;
    }

    /** The character checkVerticalRows takes on row b of column i is cell
        (b, i). */
    lemma ColumnPiece(g: Geometry, numberstring: seq<int>, i: int, b: int, rowStart: int)
      requires Valid() && g == Geom() && |numberstring| == squaresOnBoard
      requires 0 <= i < g.n && 0 <= b < g.n
      requires rowStart == i + (i / blockLength) * (squaresInBlock - blockLength) + b * blockLength + (b / blockLength) * (squaresInBlockRow - squaresInBlock)
      ensures 0 <= rowStart < g.n * g.n
      ensures numberstring[rowStart] == Cell(g, numberstring, b, i)
    {
      assert squaresInBlockRow - squaresInBlock == g.n * g.s - g.n;
      assert rowStart == ColumnWalk(g, i, b);
      ColumnWalkIsCell(g, i, b);
      CellIndexInRange(g, b, i);
    }

    /** checkRows (calculator.php:207-227): too long a gameset throws; any
        other is padded with '0' and must pass the block, row and column
        checks, which is to say that it obeys the rules of Sudoku. */
    method CheckRows(numberstring: seq<int>) returns (r: Result<bool>)
      requires Valid()
      ensures r == Verdict(Geom(), numberstring)
    {
      if |numberstring| > squaresOnBoard {
        return Err(GamesetTooLong);
      }
      var padded := numberstring;
      if |numberstring| < squaresOnBoard {
        padded := numberstring + Zeros(squaresOnBoard - |numberstring|);
      }
      assert padded == Pad(Geom(), numberstring);
      VerdictBoardOk(Geom(), numberstring);
      var blocksOk := CheckBlocks(padded);
      if !blocksOk {
        return Ok(false);
      }
      var rowsOk := CheckHorizontalRows(padded);
      if !rowsOk {
        return Ok(false);
      }
      var columnsOk := CheckVerticalRows(padded);
      if !columnsOk {
        return Ok(false);
      }
      return Ok(true);
    }

    /** checkCorrectnessNumberstring (calculator.php:108-120): an empty
        string (or "0") throws, so do a gameset longer than the board and one
        that breaks the rules; anything else passes. */
    method CheckCorrectnessNumberstring(numberstring: seq<int>) returns (r: Result<()>)
      requires Valid()
      ensures r.Ok? <==> (NotEmptyString(numberstring) && |numberstring| <= squaresOnBoard &&
        Consistent(Geom(), Pad(Geom(), numberstring)))
      ensures !NotEmptyString(numberstring) ==> r == Err(InvalidNumericString)
      ensures NotEmptyString(numberstring) && |numberstring| > squaresOnBoard ==> r == Err(GamesetTooLong)
      ensures r.Err? && NotEmptyString(numberstring) && |numberstring| <= squaresOnBoard ==> r == Err(InvalidGameset)
    {
      if !NotEmptyString(numberstring) {
        return Err(InvalidNumericString);
      }
      var checkRows := CheckRows(numberstring);
      VerdictIffConsistent(Geom(), numberstring);
      if checkRows.Err? {
        return Err(checkRows.error);
      }
      if !checkRows.value {
        return Err(InvalidGameset);
      }
      return Ok(());
    }

    /** backtrackSolution (calculator.php:163-195): fills the first '0' with
        each available number in turn, skips the strings checkRows refuses,
        recurses on the others and stops at the first success. A string
        without '0' is a solution: it is appended to finalSolutions. */
    method BacktrackSolution(numberstring: seq<int>) returns (r: Result<bool>)
      requires Valid()
      modifies this`finalSolutions
      ensures r == Outcome(Solve(Geom(), numberstring))
      ensures finalSolutions == old(finalSolutions) + Emitted(Solve(Geom(), numberstring))
      decreases ZeroCount(numberstring)
    {
      ghost var g := Geom();
      ghost var judge := CheckRowsJudge(g);
      var emptySpot := FirstZero(numberstring);
      if emptySpot.None? {
        assert Solve(g, numberstring) == Ok(Some(numberstring));
        finalSolutions := finalSolutions + [numberstring];
        return Ok(true);
      }
      var p := emptySpot.value;
      ghost var outcome := TryFrom(g.n, judge, numberstring, p, 1);
      assert Solve(g, numberstring) == outcome;
      var current := numberstring;
      assert current == numberstring[p := 0];
      var i := 0;
      ghost var v := 1;
      while i < |availableNumbers|
        invariant 0 <= i <= |availableNumbers|
        invariant current == numberstring[p := i]
        invariant finalSolutions == old(finalSolutions)
        invariant v == i + 1 && outcome == TryFrom(g.n, judge, numberstring, p, v)
      {
        var number := availableNumbers[i];
        current := current[p := number];
        assert current == numberstring[p := v];
        TryFromStep(g.n, judge, numberstring, p, v);
        assert judge(current) == Verdict(g, current) && Backtrack(g.n, judge, current) == Solve(g, current);
        var checkRows := CheckRows(current);
        if checkRows.Err? {
          assert outcome == Err(checkRows.error);
          return Err(checkRows.error);
        }
        if !checkRows.value {
          assert outcome == TryFrom(g.n, judge, numberstring, p, v + 1);
          i, v := i + 1, v + 1;
          continue;
        }
        ghost var below := Solve(g, current);
        var foundSolution := BacktrackSolution(current);
        if foundSolution.Err? {
          assert below.Err? && outcome == Err(below.error);
          return Err(foundSolution.error);
        }
        if foundSolution.value {
          assert below.Ok? && below.value.Some? && outcome == below;
          return Ok(true);
        }
        assert below == Ok(None) && finalSolutions == old(finalSolutions);
        assert outcome == TryFrom(g.n, judge, numberstring, p, v + 1);
        i, v := i + 1, v + 1;
      }
      assert v == g.n + 1 && outcome == Ok(None);
      return Ok(false);
    }

    /** calculateSolution (calculator.php:133-151): refuses an empty string,
        runs the search, and answers the first entry of finalSolutions, which
        is never reset: on a calculator that has solved before, that is the
        earlier solution. */
    method CalculateSolution(numberstring: seq<int>) returns (r: Result<seq<int>>)
      requires Valid()
      modifies this`finalSolutions
      ensures !NotEmptyString(numberstring) ==> r == Err(InvalidNumericString) && finalSolutions == old(finalSolutions)
      ensures NotEmptyString(numberstring) ==>
        finalSolutions == old(finalSolutions) + Emitted(Solve(Geom(), numberstring))
      ensures NotEmptyString(numberstring) && Solve(Geom(), numberstring).Err? ==>
        r == Err(Solve(Geom(), numberstring).error)
      ensures NotEmptyString(numberstring) && Solve(Geom(), numberstring).Ok? ==>
        r == if finalSolutions == [] then Err(NoSolution) else Ok(finalSolutions[0])
      ensures NotEmptyString(numberstring) && old(finalSolutions) == [] ==>
        (r == Err(NoSolution) <==> Solve(Geom(), numberstring) == Ok(None))
    {
      if !NotEmptyString(numberstring) {
        return Err(InvalidNumericString);
      }
      var found := BacktrackSolution(numberstring);
      CheckRowsJudgeFits(Geom());
      BacktrackErr(countAvailableNumbers, CheckRowsJudge(Geom()), squaresOnBoard, numberstring);
      if found.Err? {
        return Err(found.error);
      }
      if finalSolutions == [] {
        return Err(NoSolution);
      }
      return Ok(finalSolutions[0]);
    }
  }
}
