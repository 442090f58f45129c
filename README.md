# Sudoku solver and block generator, modelled in Dafny

This project models the core of a PHP Sudoku application:

- the game parameters (`Sudoku`, sudoku.php);
- the calculator that validates a gameset and solves it by backtracking (`SudokuCalculator`, calculator.php);
- the generator that lists the possible fillings of one block and turns the browser's cell array into a gameset (`SudokuGenerator`, generator.php).

A gameset is a string of digit characters, one per cell. The character '0' is an empty cell. Cells are stored block-major: all cells of block 0, then block 1, and so on; inside a block they go row by row. The model keeps each character as an `int` symbol, with 0 for '0'. Boards are `seq<int>`.

Modules:

| module | file | contents |
|---|---|---|
| `Wrappers` | wrappers.dfy | `Option`, `Result`, and the exceptions the source throws, one constructor each |
| `Arith` | arith.dfy | the multiplication and division facts the index arithmetic needs |
| `SudokuGame` | sudoku.dfy | class `Sudoku` with its field `rangeMax`, and every board dimension derived from it |
| `BoardLayout` | layout.dfy | the block-major layout; the index walks of checkHorizontalRows and checkVerticalRows, proved to visit exactly the cells of a row or column |
| `Rules` | rules.dfy | checkRow, checkRows as a function (`Verdict`), and its equivalence with a plain statement of the rules of Sudoku over the grid (`Consistent`) |
| `Search` | search.dfy | the backtracking of backtrackSolution as a function, stated for any judge with two properties; soundness, completeness, and the fact that it finds the least solution |
| `Calculator` | calculator.dfy | class `SudokuCalculator`; its methods have the source's loops and recursion, and each is proved equal to the functions above |
| `Permutations` | perms.dfy | the order in which generatePossibleNumberCombinations hands out the free numbers: every ordering exactly once, k! of them, ascending |
| `Generator` | generator.dfy | class `SudokuGenerator` and the theorems about the block combinations and the number-string conversion |

What is proved, in the system's own terms:

- **checkRows** refuses a gameset that is longer than the board with its exception. Any other gameset is padded with '0'. It is accepted exactly when no two cells in the same row, column or block hold the same symbol other than '0'.
- The index walks of checkHorizontalRows and checkVerticalRows visit exactly the cells of row i and of column i. The `str_split` chunks of checkBlocks are exactly the blocks.
- **backtrackSolution** and calculateSolution are sound in three ways:
  - the solution they return keeps every given cell and leaves no '0';
  - when the search fills a cell, the result obeys the rules;
  - the search throws only when the input is too long.
- They are also complete:
  - when a completion obeying the rules exists, a solution is found;
  - the search returns "no solution" exactly when none exists.
- The solution found is the lexicographically least completion that obeys the rules.
- **generateBlockCombinations** refuses a string exactly when a symbol is not one of 1..rangeMax or repeats. Otherwise it lists exactly the fillings of the block that:
  - hold every one of 1..n once;
  - keep the placed digits;
  - come in ascending order without repeats, (n - placed)! of them.
- **generateNumberStringFromArray** joins the values in ascending key order. This order does not depend on the order in which the entries were made.

Candidates are tried in ascending order, and checkRows never refuses a blanked version of a string it accepts. So the first solution found is the lexicographically least accepted completion (`Search.BacktrackLeast`, `Calculator.SolveLeast`).

## Model

| member | source | states |
|---|---|---|
| SudokuGame.Range | sudoku.php:28 | PHP `range(lo, hi)`: its length, and that entry i is lo + i (or lo - i when counting down) |
| SudokuGame.IntSqrt | sudoku.php:71-74 | the integer square root r, with r² ≤ x < (r+1)² |
| SudokuGame.IntSqrtExact | sudoku.php:71-74 | when x = m², the integer root is m: the `(int) $length != $length` test accepts exactly the perfect squares |
| SudokuGame.Sudoku.constructor | sudoku.php:17 | rangeMax starts at 9 |
| SudokuGame.Sudoku.AvailableNumbers | sudoku.php:26-29 | the numbers 1..rangeMax in order; PHP's descending range when rangeMax < 1 |
| SudokuGame.Sudoku.SetMaxNumber | sudoku.php:40-47 | 0 (PHP `empty`) is refused with the exception and leaves rangeMax alone; any other number becomes rangeMax |
| SudokuGame.Sudoku.BoardBorderLength | sudoku.php:56-59 | the count of available numbers: rangeMax when that is positive |
| SudokuGame.Sudoku.BlockBorderLength | sudoku.php:68-79 | defined exactly when the count is a perfect square, and then its root; otherwise the border-length exception |
| SudokuGame.Sudoku.NumberBlockPerSide | sudoku.php:88-91 | defined exactly when the block side is; it equals the block side, and times the block side it gives the board side |
| SudokuGame.Sudoku.NumberOfSquaresOnBoard | sudoku.php:100-103 | rangeMax² cells |
| SudokuGame.Sudoku.NumberOfSquaresInBlock | sudoku.php:112-115 | one cell per symbol: the board side, rangeMax |
| BoardLayout.CellIndex | painter.php:5-24 | the index of cell (r, c) in the block-major string, the painter's numbering counted from 0; the rows below prove it a bijection from the n × n grid onto 0..n² - 1 |
| BoardLayout.CellSplit | painter.php:5-24 | the index of cell (r, c) is n times its block plus its place in the block, both below n |
| BoardLayout.CellIndexInRange | painter.php:5-24 | every cell of the n × n grid has an index inside the n² characters |
| BoardLayout.CellInChunk | calculator.php:327 | index / n is the cell's block and index % n its place in the block |
| BoardLayout.CellIndexDecodes | painter.php:5-24 | row and column are read back from the index of a cell |
| BoardLayout.IndexEncodes | painter.php:5-24 | every index is the index of the cell read back from it: the layout is a bijection |
| BoardLayout.CellIndexInjective | painter.php:5-24 | two cells share an index exactly when they are the same cell |
| BoardLayout.RowWalk | calculator.php:260-268 | the index checkHorizontalRows reads for character k of piece b of row i: `$start` plus squaresInBlock · b plus k; RowWalkIsCell proves it is cell (i, s·b + k) |
| BoardLayout.ColumnWalk | calculator.php:293-304 | the `$rowStart` index checkVerticalRows reads on step b of column i; ColumnWalkIsCell proves it is cell (b, i) |
| BoardLayout.RowWalkIsCell | calculator.php:260-268 | character k of piece b that checkHorizontalRows takes for row i is cell (i, s·b + k) |
| BoardLayout.ColumnWalkIsCell | calculator.php:293-304 | the character checkVerticalRows takes on step b for column i is cell (b, i) |
| BoardLayout.RowWalkDistinct | calculator.php:260-268 | the row walk stays inside the string and never visits an index twice |
| BoardLayout.ColumnWalkDistinct | calculator.php:293-304 | the column walk stays inside the string and never visits an index twice |
| BoardLayout.RowMeetsColumn | calculator.php:255-313 | the walks of row r and column c meet in exactly one index, that of cell (r, c) |
| Rules.NonZero | calculator.php:241 | `array_filter` of the row's characters: never longer than the row; NonZeroMembers states that it keeps exactly the symbols other than '0' |
| Rules.Elements | calculator.php:243 | the values `array_unique` keeps; ElementsCount relates how many there are to the length |
| Rules.CheckRow | calculator.php:238-244 | checkRow: the filtered symbols are as many as the distinct filtered symbols; CheckRowIffNoRepeats proves this means no symbol other than '0' repeats |
| Rules.NonZeroMembers | calculator.php:241 | `array_filter` keeps exactly the symbols other than '0' |
| Rules.ElementsCount | calculator.php:243 | `array_unique` keeps at most as many values, and as many exactly when none repeats |
| Rules.NonZeroDistinct | calculator.php:240-243 | the filtered row repeats nothing exactly when the row repeats no symbol other than '0' |
| Rules.CheckRowIffNoRepeats | calculator.php:238-244 | checkRow accepts exactly the groups in which no symbol other than '0' occurs twice |
| Rules.BlankingKeepsRow | calculator.php:238-244 | turning cells of an accepted group back into '0' keeps it accepted |
| Rules.StrSplit | calculator.php:327 | `str_split` into pieces of len characters: always at least one piece; StrSplitChunks gives the pieces of a string of k·n characters |
| Rules.StrSplitChunks | calculator.php:327 | `str_split` of k·n characters gives k pieces; piece b is characters n·b to n·b + n - 1 |
| Rules.Pad | calculator.php:213-216 | the padded gameset has n² cells: the given ones, then '0' |
| Rules.RowWalkPiece | calculator.php:266-268 | the `substr` piece taken from block b of row i is the row's cells s·b to s·b + s - 1 |
| Rules.AllFrom | calculator.php:255-336 | one checking loop from group i on, ending at the first group that fails checkRow; AllFromIff proves it accepts exactly when every group from i on passes |
| Rules.Accepted | calculator.php:219-224 | the short-circuit chain of checkBlocks, checkHorizontalRows and checkVerticalRows; AcceptedIffBoardOk and BoardOkIffConsistent relate it to the rules over the grid |
| Rules.AllFromIff | calculator.php:255-336 | each checking loop accepts exactly when every group it visits passes checkRow |
| Rules.AcceptedIffBoardOk | calculator.php:219-224 | the three loops together accept exactly when every block, row and column passes checkRow |
| Rules.Verdict | calculator.php:207-227 | checkRows throws exactly when the gameset is longer than the board, with the 'longer than the board' exception |
| Rules.VerdictBoardOk | calculator.php:207-227 | for a gameset that fits, checkRows answers whether every group of the padded board passes checkRow |
| Rules.ChunkHoldsBlock | calculator.php:327 | cell (r, c) is at its place in chunk BlockOf(r, c) of checkBlocks |
| Rules.ChunkPositionIsCell | calculator.php:327 | every position of a chunk is a cell of that block |
| Rules.BoardOkIffConsistent | calculator.php:219-224 | the block, row and column checks accept a board exactly when no two cells sharing a row, column or block hold the same symbol other than '0' |
| Rules.BlankingKeepsVerdict | calculator.php:207-227 | checkRows keeps accepting a gameset when some of its cells are blanked |
| Rules.VerdictIffConsistent | calculator.php:207-227 | checkRows accepts a gameset that fits exactly when its padded board obeys the rules of Sudoku |
| Search.FirstZero | calculator.php:166 | `strpos(s, '0')`: none exactly when there is no '0'; otherwise the first '0' |
| Search.ZeroCountFill | calculator.php:176 | writing a number into the empty cell leaves one empty cell fewer: the recursion ends |
| Search.Backtrack | calculator.php:163-195 | backtrackSolution for any judge: the string appended to finalSolutions, none, or the judge's exception; BacktrackSound, BacktrackComplete, BacktrackNone and BacktrackLeast state what it computes |
| Search.TryFrom | calculator.php:175-191 | the foreach from candidate v on: the first candidate the judge accepts whose recursion succeeds; TryFromOk and BacktrackLeast's lemmas state its properties |
| Search.BacktrackErr | calculator.php:163-195 | the search throws exactly when the input has a '0' and is longer than the board |
| Search.TryFromOk | calculator.php:175-191 | the foreach never throws for a string that fits the board |
| Search.BacktrackSound | calculator.php:163-195 | the appended string keeps the given cells and has no '0'; when something was filled in, checkRows accepts it; without a '0' the input is returned as it is |
| Search.BacktrackComplete | calculator.php:163-195 | when an accepted completion exists, the search finds a solution |
| Search.BacktrackNone | calculator.php:163-195 | the search returns false exactly when the input has a '0', fits the board, and no completion is accepted |
| Search.BacktrackLeast | calculator.php:175-191 | the solution found is the least accepted completion in dictionary order |
| Calculator.CheckRowsJudgeFits | calculator.php:207-227 | checkRows throws only for too-long gamesets, and blanking cells never turns acceptance into refusal |
| Calculator.Solve | calculator.php:163-195 | the search with checkRows as the judge; SolveSound, SolveNone and SolveLeast state what it computes |
| Calculator.SolveSound | calculator.php:163-195 | the solution keeps the given cells and has no '0'; when something was filled in, the padded solution obeys the rules of Sudoku |
| Calculator.SolveNone | calculator.php:163-195 | no solution exactly when the input has a '0', fits the board, and no completion obeys the rules |
| Calculator.SolveLeast | calculator.php:175-191 | when a completion obeying the rules exists, one is found, and it is the least in dictionary order |
| Calculator.SudokuCalculator.constructor | calculator.php:87-95 | caches the game's dimensions and starts with no solutions |
| Calculator.SudokuCalculator.Create | calculator.php:75-96 | throws the border-length exception exactly when rangeMax is no perfect square |
| Calculator.SudokuCalculator.CheckBlocks | calculator.php:324-336 | true exactly when every block passes checkRow |
| Calculator.SudokuCalculator.CheckHorizontalRows | calculator.php:255-277 | true exactly when every row passes checkRow |
| Calculator.SudokuCalculator.CheckVerticalRows | calculator.php:288-313 | true exactly when every column passes checkRow |
| Calculator.SudokuCalculator.ColumnPiece | calculator.php:300-304 | the character at `$rowStart` lies in the string and is cell (b, i) |
| Calculator.SudokuCalculator.CheckRows | calculator.php:207-227 | the result is `Verdict`: the exception for a too-long gameset, otherwise acceptance of the padded board |
| Calculator.SudokuCalculator.CheckCorrectnessNumberstring | calculator.php:108-120 | passes exactly for a non-empty gameset that fits and obeys the rules; otherwise the empty-string, too-long or invalid-gameset exception, as the case is |
| Calculator.SudokuCalculator.BacktrackSolution | calculator.php:163-195 | the result is the outcome of the search; finalSolutions gains exactly the solution found, if any |
| Calculator.SudokuCalculator.CalculateSolution | calculator.php:133-151 | refuses an empty string; otherwise runs the search and answers finalSolutions[0] or the no-solution exception; on a fresh calculator it reports no solution exactly when none exists |
| Permutations.RemoveAt | generator.php:133-135 | the remaining numbers without entry j, in order |
| Permutations.Perms | generator.php:131-139 | the orderings of the numbers in the order the foreach visits them; PermsCount, PermsArePermutations, PermsComplete and PermsSorted state what it lists |
| Permutations.PermsCount | generator.php:131-139 | k numbers give k! orderings |
| Permutations.PermsArePermutations | generator.php:131-139 | every listed ordering holds exactly the given numbers |
| Permutations.PermsComplete | generator.php:131-139 | every ordering of the numbers is listed |
| Permutations.PermsSorted | generator.php:131-139 | for ascending numbers the orderings come in ascending dictionary order, each once |
| Generator.Combinations | generator.php:104-149 | what one call of generatePossibleNumberCombinations appends, branch for branch; CombinationsAreFilled proves it is the orderings of the remaining numbers filled into the free cells |
| Generator.Branches | generator.php:131-139 | the first j rounds of the foreach, each recursing on the numbers without entry j, as CombinationsAreFilled states for all j |
| Generator.CombinationsAreFilled | generator.php:104-149 | the recursion appends the orderings of the remaining numbers, each filled into the free cells; when a fixed position lies beyond the reachable cells, it appends nothing |
| Generator.CompletedSorted | generator.php:131-139 | filling the free cells keeps the dictionary order of the orderings |
| Generator.IndexOf | generator.php:77 | `array_search`: none exactly when x is absent; otherwise an index that holds x |
| Generator.ScanFromSpec | generator.php:63-83 | the scan from position i, given the symbols before i, ends with the unused numbers and the placed symbols, or the refusal |
| Generator.ScanFrom | generator.php:63-83 | the loop over the given string from position i on; ScanFromSpec and ScanStart state its outcome |
| Generator.ScanStart | generator.php:63-83 | the whole scan, in those terms |
| Generator.BlockCombinations | generator.php:55-90 | generateBlockCombinations as a function: the scan, then the combinations of what it leaves; BlockCombinationsFails, BlockShape and the three BlockCombinations lemmas below state what it returns |
| Generator.BlockCombinationsFails | generator.php:77-80 | the string is refused exactly when a symbol is not one of 1..n or repeats, with the unknown-number exception |
| Generator.RemainingFacts | generator.php:76-81 | the numbers left over ascend, and together with the placed symbols they make up 1..n |
| Generator.FitsIffWithin | generator.php:104-149 | the placed symbols can all be reached exactly when they stand inside the block |
| Generator.BlockShape | generator.php:55-149 | for an accepted string, the combinations are the orderings of the unused numbers filled into the free cells, or none when a symbol stands beyond the block |
| Generator.BlockCombinationsSound | generator.php:55-149 | every combination has n cells, holds each of 1..n once and keeps the placed symbols |
| Generator.BlockCombinationsComplete | generator.php:55-149 | every such filling of an accepted string is listed |
| Generator.BlockCombinationsOrdered | generator.php:55-149 | the combinations ascend, so none repeats, and there are (n - placed)! of them |
| Generator.FullyFixedBlock | generator.php:55-149 | a block with every cell given yields exactly that block |
| Generator.SortedKeys | generator.php:169 | the key order `ksort` leaves; SortedKeysAscend and SortedKeysUnique state that it is the one ascending listing of the keys |
| Generator.Implode | generator.php:171 | `implode('', ...)` of the values under a list of keys, in that order |
| Generator.Joined | generator.php:169-171 | `ksort` then `implode`; JoinedInKeyOrder and JoinedAppendsLast state the string it gives |
| Generator.SortedKeysAscend | generator.php:169 | `ksort` order lists every key once, ascending |
| Generator.SortedKeysUnique | generator.php:169 | that order is the only ascending listing of the keys |
| Generator.JoinedInKeyOrder | generator.php:169-171 | any ascending listing of the keys joins to the same string |
| Generator.JoinedAppendsLast | generator.php:169-171 | an entry with a key above all others goes at the end of the string |
| Generator.SudokuGenerator.constructor | generator.php:35-43 | keeps the game and starts with no combinations |
| Generator.SudokuGenerator.GenerateBlockCombinations | generator.php:55-90 | the result is `BlockCombinations` of rangeMax and the string; the field holds the combinations, or nothing after a refusal |
| Generator.SudokuGenerator.ScanFixedPositions | generator.php:63-83 | the loop over the string computes the scan: the unused numbers and the placed symbols, or the refusal |
| Generator.SudokuGenerator.GeneratePossibleNumberCombinations | generator.php:104-149 | appends exactly `Combinations` of its arguments to generatedCombinations |
| Generator.SudokuGenerator.GenerateNumberStringFromArray | generator.php:161-172 | an empty array is refused; otherwise the values are joined in ascending key order |

## Left out

- The painter, the parser, the index page and the validator are not part of this model. One exception is `notEmptyString` (validator.php:21), which the calculator calls.
- `set_time_limit(0)` (calculator.php:140) has no effect on the result, so it is not modelled.
- The `is_object` and `empty($Sudoku)` checks of the constructors are not modelled. Dafny's types rule those cases out.
- The Generator, Painter and Validator handles kept by the calculator's constructor are not modelled. The calculator only calls `notEmptyString`, which is a pure function here.
- SudokuGame.Sudoku.BlockBorderLength: PHP's floating-point `sqrt` is modelled as an exact integer square root, checked by squaring. For the symbol counts of 1 to 9 the two agree.
- SudokuGame.Sudoku.SetMaxNumber: only integer arguments are modelled. A non-numeric argument, and `empty` of values other than 0, are not modelled.
- Calculator.SudokuCalculator.constructor: The calculator requires 1 ≤ rangeMax ≤ 9. At line 176 backtrackSolution writes a number into one character, which does not work for numbers of two digits.
- Generator.SudokuGenerator.GenerateBlockCombinations: modelled for every rangeMax, with each number one symbol. For rangeMax above 9 the model does not describe the source's combinations at all. The source builds each combination as a string (generator.php:110, 137, 144), so two-digit numbers run together. It also looks placed digits up by `strlen($combination)` (generator.php:108, 110, 114), which stops matching the cell position once a two-digit number has been appended.
- Calculator.SudokuCalculator.CheckBlocks: checkBlocks reads the chunk size from the game each time it runs (calculator.php:327). The model uses the size cached at construction. The two differ only when setMaxNumber is called after the calculator is built.
- Symbols are integers, not characters.
  - Characters other than digits are not modelled.
  - PHP's loose comparison `$number == 0` is not modelled. It also skips non-numeric characters.
  - The browser array's keys are integers, and its values are sequences of symbols.
- The search theorems are stated for any judge that has two properties, FailsOnlyWhenLong and KeepsOnBlanking. Calculator.CheckRowsJudgeFits proves that checkRows has both.
- The scan loop of generateBlockCombinations (generator.php:63-83) is its own method, ScanFixedPositions. GenerateBlockCombinations calls it.
- Calculator.SudokuCalculator.CalculateSolution: finalSolutions is never reset. On a calculator that solved a gameset before, the answer is that earlier solution. The contract states this case as it is.
- Search.BacktrackSound: an input without a '0' goes straight to finalSolutions without being checked (calculator.php:169-172). The model states this rather than claiming the input obeys the rules.
- Calculator.SudokuCalculator.BacktrackSolution: a gameset shorter than the board is padded only inside checkRows. The solution keeps the input's length.
